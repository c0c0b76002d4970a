# Telegram storefront bot — verified model

This project models the command handling of the storefront bot in `apps/bot/src/index.ts`. Customers talk to a Telegram bot. They list categories (`/start`), list the catalog (`/katalog`) and place orders (`/order <product_id>`). The bot keeps its data in three backend tables, and here those tables are held in memory:

- `customers`: a map from Telegram id to a customer row with an internal id.
- `products`: a map from product id to a product row.
- `orders`: an append-only sequence of order rows.

The project is split into these modules:

- **Text** (`text.dfy`): the JavaScript string operations the handler relies on. These are `startsWith`, `split(" ")`, `join`, `trim` (with JavaScript's white-space set) and decimal rendering of numbers. The split/join round trips and "a blank label is all white space" are proved. Numbers render in canonical decimal: no leading zeros, and exactly one rendering per number.
- **Model** (`model.dfy`): the rows and the store value `Db`, with its invariant. The invariant says that each Telegram id has at most one customer, internal customer ids are unique, and order ids are positions.
- **Catalog** (`catalog.dfy`): `getCategories` and `getCatalog`, and the `/start` and `/katalog` reply texts.
  - `getCategories` is deduplication with `Set` followed by the blank filter. Its result is proved free of duplicates and of blank labels. It is also proved to hold exactly the non-blank categories of the products, in first-occurrence order.
  - When no category label and no product name contains a line break, each reply is proved to split into one line per category or per product. The `/katalog` reply for an empty catalog is the single notice line. Nothing stops a stored label or name from containing a line break. In that case the reply has more lines than entries, and the line lemmas say nothing about it.
- **Registry** (`registry.dfy`): `ensureCustomer`, which finds the customer or creates one.
- **Orders** (`orders.dfy`): `createOrder` as written. It also holds the decrementing variant a stock-safe store needs.
- **Router** (`router.dfy`): prefix dispatch and `text.split(" ")[1]`. The split-based argument is proved equal to a scan for the word after the first space.
- **Storage** (`storage.dfy`): the store as a class. Its fields are the three tables, and `EnsureCustomer` and `CreateOrder` are methods. Each method is proved against the function of the same name on `Db`. `CreateOrder` may modify only the `orders` field.
- **Webhook** (`webhook.dfy`): the `/webhook` handler, in two forms.
  - `Handle` is a function. `HandleWebhook` is a method that runs the same steps against a `Store` object and is proved equal to `Handle`.
  - The handler returns the HTTP response and the log of `sendMessage` calls.
  - What the backend answers during a call is a parameter (`Backend`). That covers the row order of the two product queries and which reads or inserts fail.

## Stock is not decremented

`createOrder` (`apps/bot/src/index.ts:102-111`) inserts an order and never writes to `products`. The model follows the code:

- `Orders.CreateOrder` and `Webhook.Handle` leave every product, stock included, unchanged.
- `Orders.OversellAsWritten` shows two successful orders for the last unit of a product.
- `Webhook.SpotifyExample` replays the one-product Spotify example (one product `p1` at 59000 with stock 1, ordered twice). The second `/order p1` succeeds and the stock stays at 1.

`Orders.CreateOrderDecrementing` is a separately named variant that takes one unit off the stock on success. For it, orders plus stock is conserved per product, and `Orders.LastUnitSoldOnce` shows that the second order for the last unit is refused.

## Where the intended behaviour and the code differ (the model follows the code)

- Stock: see above.
- Category order. A storefront would be expected to list categories in a fixed order, for example sorted. The code keeps the backend's row order, deduplicated by first occurrence, and so does `Catalog.GetCategories`.
- Concurrent first contact. A registry that is safe under concurrent first contact would re-read after a uniqueness violation. The code returns null on any insert error, and the model does the same: an insert failure yields `None`.
- A failed product read gets the same "Produk tidak ditemukan." reply as an unknown product.
- `ensureCustomer` runs before the product is looked up. So `/order` for an unknown product still creates the sender's customer row (`Webhook.OrderForUnknownProduct`).

## Model

| member | source | states |
|---|---|---|
| `Webhook.IsValidWebhook` | apps/bot/src/index.ts:123-127 | with no secret configured every call passes; otherwise a call passes iff its `x-telegram-bot-api-secret-token` header equals the secret exactly |
| `Webhook.ExtractEvent` | apps/bot/src/index.ts:135-144 | an event is produced iff the message has a truthy chat id and a truthy sender id; the event carries that chat id, sender id and username, and the message text, or `""` when the text is missing |
| `Webhook.Truthy` | apps/bot/src/index.ts:141 | an optional number is truthy iff it is present and not 0 |
| `Webhook.Handle` | apps/bot/src/index.ts:129-193 | a call failing the gate gets 401 "Unauthorized", sends nothing, store unchanged; an event without chat/sender id gets "ignored", sends nothing, store unchanged; every other event sends exactly one message, to its own chat, and gets "ok"; that message is `Reply`'s text and the new store is `Reply`'s store; products (stock included) never change; at most one order is appended and earlier orders are kept |
| `Webhook.OrderReply` | apps/bot/src/index.ts:171-188 | `/order <id>` keeps every existing customer row and adds at most the sender's; without a customer id it answers "Gagal membuat profil pelanggan." and leaves the store unchanged, otherwise it answers with `CreateOrder`'s message and store; products never change and at most one order is appended |
| `Webhook.Reply` | apps/bot/src/index.ts:146-191 | `/start` answers `StartReply` of `GetCategories`; `/katalog` answers `CatalogReply` of `GetCatalog`; `/order` without an argument answers the usage hint; any other text answers "Perintah tidak dikenali. Coba /katalog."; none of these changes the store. `/order <id>` keeps every existing customer row as it was and adds at most the sender's. It answers "Gagal membuat profil pelanggan." with the store unchanged when `EnsureCustomer` yields no id. Otherwise it answers with `CreateOrder`'s message and store. Products never change, and at most one order is appended |
| `Webhook.HandleWebhook` | apps/bot/src/index.ts:129-193 | the step-by-step handler over a `Store` object yields exactly `Handle`'s response, send log and new store |
| `Webhook.OrderWithoutArgument` | apps/bot/src/index.ts:171-178 | `/order` whose `split(" ")[1]` is missing or empty only sends the usage hint; no customer or order is touched |
| `Webhook.NoOrderWithoutCustomer` | apps/bot/src/index.ts:179-184 | when the customer row cannot be created the reply is "Gagal membuat profil pelanggan." and no order is attempted |
| `Webhook.OrderPlaced` | apps/bot/src/index.ts:171-188 | `/order <id>` for a product in stock, without backend failure, appends one pending order for the sender's customer at the product price and sends the confirmation naming it; products unchanged; the customer counter advances exactly when the sender was new |
| `Webhook.OrderForUnknownProduct` | apps/bot/src/index.ts:179-186 | `/order <id>` for an unknown product replies "Produk tidak ditemukan." and appends no order, though the customer row now exists |
| `Webhook.SpotifyOrder` | apps/bot/src/index.ts:171-188 | on the example store, `/order p1` from a new user appends a pending order of 59000 for the next customer id, keeps the products, and sends the confirmation naming the order |
| `Webhook.SpotifyExample` | apps/bot/src/index.ts:129-193 | worked example: `/order p1` on a Spotify product (59000, stock 1) creates a pending 59000 order; stock stays 1; a second `/order p1` also succeeds |
| `Router.Parse` | apps/bot/src/index.ts:146-191 | the command is `/start`, `/katalog`, `/order` exactly when the text has that prefix (the prefixes exclude each other, so the test order cannot change the outcome), otherwise unrecognized; `/order` carries `split(" ")[1]` |
| `Router.PrefixesExclusive` | apps/bot/src/index.ts:146-171 | no text starts with two of `/start`, `/katalog`, `/order` |
| `Router.OrderArgument` | apps/bot/src/index.ts:172-174 | a present argument is non-empty and contains no space |
| `Router.OrderArgumentByScan` | apps/bot/src/index.ts:172-174 | `split(" ")[1]` (empty counted as absent) equals the run of non-space characters right after the first space, absent when there is no space or the run is empty |
| `Router.FirstSpace` | apps/bot/src/index.ts:172 | the index of the first space, or the length when there is none |
| `Router.NoArgumentExample` | apps/bot/src/index.ts:172-175 | `"/order"` has no argument |
| `Router.EmptyArgumentExample` | apps/bot/src/index.ts:172-175 | `"/order  p1"` (double space) has no argument |
| `Router.ArgumentExample` | apps/bot/src/index.ts:172-173 | `"/order p1"` has argument `p1` |
| `Registry.EnsureCustomer` | apps/bot/src/index.ts:64-85 | an existing Telegram id returns its id and changes nothing; otherwise an insert failure returns null and changes nothing, and a successful insert adds exactly the row `{telegramId, username}` under the next id of the counter, which no other customer has, and advances the counter; products and orders untouched; uniqueness invariant kept |
| `Registry.EnsureCustomerTwice` | apps/bot/src/index.ts:64-85 | after a call that returned an id, a second call for the same Telegram id returns the same id and changes nothing; one row for that id |
| `Storage.Store.constructor` | apps/bot/src/index.ts:22-24 | a fresh store holds the given products, no customers and no orders, and is valid |
| `Storage.Store.EnsureCustomer` | apps/bot/src/index.ts:64-85 | the method's result and new tables are exactly `Registry.EnsureCustomer`'s |
| `Storage.Store.CreateOrder` | apps/bot/src/index.ts:87-121 | the method's result and new tables are exactly `Orders.CreateOrder`'s; it may modify only `orders` |
| `Orders.CreateOrder` | apps/bot/src/index.ts:87-121 | unknown product or failed read: "Produk tidak ditemukan.", nothing appended; `stock <= 0`: out-of-stock message, nothing appended; in stock but the insert fails: "Gagal membuat pesanan.", nothing appended; success iff product exists with positive stock and nothing fails, and then exactly one order `{customer, product, amount = price, pending}` is appended and the message is the confirmation naming its id; products and customers never change |
| `Orders.Confirmation` | apps/bot/src/index.ts:119 | the message is the fixed head "Pesanan dibuat. ID: ", then the order id in canonical decimal, then the fixed payment tail |
| `Orders.ConfirmationNamesOrder` | apps/bot/src/index.ts:117-120 | confirmation messages are equal iff their order ids are equal, so the message identifies the new order |
| `Orders.OversellAsWritten` | apps/bot/src/index.ts:98-111 | with stock 1, two successive orders both succeed and stock still reads 1 |
| `Orders.CreateOrderDecrementing` | apps/bot/src/index.ts:87-121 | decrementing variant: same result and orders as `CreateOrder`; per product, orders plus stock is conserved and non-negative stock stays non-negative; every product row keeps its id, name, price and category |
| `Orders.LastUnitSoldOnce` | apps/bot/src/index.ts:98-100 | with the decrement, the last unit is sold once: stock drops to 0 and the next order gets the out-of-stock message |
| `Catalog.GetCategories` | apps/bot/src/index.ts:35-48 | a failed query gives `[]`; no duplicates; no entry whose trimmed length is 0; otherwise exactly the non-blank categories of the products, in first-occurrence order of the rows |
| `Catalog.Labels` | apps/bot/src/index.ts:36-39 | a label is listed iff some row has it as its non-null category |
| `Catalog.LabelsOrder` | apps/bot/src/index.ts:36-45 | `data.map` keeps row order: of two listed labels, one first occurs before the other iff the first row carrying it comes before the first row carrying the other |
| `Catalog.Distinct` | apps/bot/src/index.ts:46 | `Array.from(new Set(..))`: no duplicates and the same values as its input |
| `Catalog.DistinctOrder` | apps/bot/src/index.ts:46 | deduplication keeps values in order of first occurrence |
| `Catalog.NonBlank` | apps/bot/src/index.ts:47 | keeps exactly the entries whose trimmed length is positive |
| `Catalog.NonBlankKeepsOrder` | apps/bot/src/index.ts:47 | the blank filter keeps distinctness and first-occurrence order |
| `Catalog.FirstIndex` | apps/bot/src/index.ts:46 | the position of the first occurrence, or the length when absent |
| `Catalog.GetCatalog` | apps/bot/src/index.ts:50-62 | a failed query gives `[]`; otherwise a listing of the products (each stored product exactly once, each row equal to the stored product), sorted by name |
| `Catalog.ListingLength` | apps/bot/src/index.ts:50-54 | a listing of the products has exactly one row per product |
| `Catalog.CatalogLine` | apps/bot/src/index.ts:163-165 | a product line is the name, the price marker (a bar and "Rp"), the rendered price, the stock marker (a bar and "Stok") and the rendered stock, in that order and nothing else; each rendering is a sign followed by the canonical decimal digits of the magnitude (`Text.IntToString`); it is a single line when the name holds no line break |
| `Catalog.CatalogLines` | apps/bot/src/index.ts:163-165 | one line per product, in catalog order, the i-th being the i-th product's `CatalogLine` |
| `Catalog.CatalogLineUnique` | apps/bot/src/index.ts:164 | any text laid out as name, price marker, rendered price, stock marker, rendered stock is exactly the product's line, so the line determines the fields it shows |
| `Catalog.CatalogReply` | apps/bot/src/index.ts:158-166 | an empty catalog gives "Katalog masih kosong."; otherwise the reply opens with the header line "Daftar produk:" |
| `Catalog.CatalogReplyLines` | apps/bot/src/index.ts:156-168 | provided no product name holds a line break: an empty catalog gives the notice as its only line, and otherwise the reply is the header followed by exactly one line per product (name, price and stock), in order |
| `Catalog.StartReply` | apps/bot/src/index.ts:148-151 | no categories gives the greeting and the no-category hint; otherwise the reply opens with the greeting, the header and the first bullet `- label` |
| `Catalog.StartReplyLines` | apps/bot/src/index.ts:146-151 | provided no category label holds a line break: the `/start` reply is the greeting and then the header and one `- label` line per category, or the no-category hint when there are none |
| `Catalog.JoinBullets` | apps/bot/src/index.ts:149 | `"- " + join("\n- ")` is the join by line of the bulleted labels |
| `Text.StartsWith` | apps/bot/src/index.ts:146 | `startsWith(p)` holds iff `p` is no longer than the text and matches its first characters one by one |
| `Text.Join` | apps/bot/src/index.ts:149 | joining no parts gives `""`; a join starts with its first part; `SplitJoin` inverts it |
| `Text.Split` | apps/bot/src/index.ts:172 | `split(c)` gives at least one part and no part contains the separator |
| `Text.JoinSplit` | apps/bot/src/index.ts:172 | joining the parts of a split with the separator restores the string |
| `Text.SplitJoin` | apps/bot/src/index.ts:163-166 | splitting a join restores the parts when none contains the separator |
| `Text.SplitWithoutSeparator` | apps/bot/src/index.ts:172 | a string without the separator splits into itself |
| `Text.SplitAtSeparator` | apps/bot/src/index.ts:172 | the first separator ends the first part |
| `Text.TrimStart` | apps/bot/src/index.ts:47 | the result is a suffix, everything removed is white space, and it does not start with white space |
| `Text.TrimEnd` | apps/bot/src/index.ts:47 | the result is a prefix, everything removed is white space, and it does not end with white space |
| `Text.Trim` | apps/bot/src/index.ts:47 | the result is the run of the text left after its leading and trailing white space; everything removed is white space and the result neither starts nor ends with white space |
| `Text.IsBlank` | apps/bot/src/index.ts:47 | `trim().length == 0` iff every character is JavaScript white space |
| `Text.NatToString` | apps/bot/src/index.ts:119 | canonical decimal: at least one digit, all digits, and no leading zero |
| `Text.DecimalUnique` | apps/bot/src/index.ts:119 | a canonical decimal string is the rendering of its own value, so with `ParseNatToString` a number has exactly one rendering |
| `Text.ParseNatToString` | apps/bot/src/index.ts:119 | reading the rendering back gives the number |
| `Text.NatToStringInjective` | apps/bot/src/index.ts:119 | different numbers render differently |
| `Text.IntToString` | apps/bot/src/index.ts:164 | a leading minus exactly for negative numbers, followed by the canonical decimal digits of the magnitude |
| `Text.RenderingUnique` | apps/bot/src/index.ts:164 | a string that is a sign followed by canonical digits of the magnitude is the rendering of that integer: each integer has exactly one rendering |

## Left out

- The Express set-up, `/health` and `app.listen` (`apps/bot/src/index.ts:6-7, 195-201`) are HTTP plumbing.
- `sendMessage` is not called. Each call is recorded as a `Sent(chatId, text)` entry. A send that throws would end the handler without a response; the model assumes sends succeed.
- The Supabase client and its query builder are not modelled: the tables are in-memory maps and a sequence.
  - Row order is chosen by the backend and is given as input.
  - `.order("name")` becomes the requirement that the catalog rows are sorted by code-point order of names. Database collation is not modelled.
- Environment variables and `console.warn` logging (`apps/bot/src/index.ts:9-20`) are left out. The webhook secret is a parameter, and `""` means no secret is configured.
- Concurrency is left out: simultaneous first contact, and two orders racing for the last unit. Each webhook call is one sequential step.
- Catalog.StartReplyLines: describes the lines of the `/start` reply only when no category label contains a line break. A label with a line break splits into extra lines, which the lemma does not cover.
- Catalog.CatalogReplyLines: describes the lines of the `/katalog` reply only when no product name contains a line break, for the same reason.
- Registry.EnsureCustomer: a failed customer lookup is not modelled, because a map cannot hold the duplicate row the code would then insert. The lookup always succeeds.
- Ids are not the backend's generated strings. Internal customer ids come from a counter and are never rendered. An order's id is its position in `orders`, and only it is rendered, in decimal, by `Orders.Confirmation`.
- Prices and stock are integers. Rendering non-integer JavaScript numbers is not modelled.
- Text.IntToString: writes every digit of any integer, while JavaScript's `${n}` writes a magnitude of 10^21 or more in exponent form (`1e+21`). The rendering agrees with the code only below 10^21, and `Catalog.CatalogLine` inherits that bound.
- Only the message fields the handler reads are modelled. An update without `message` counts as a missing message.
- `apps/admin/src/App.tsx` is not part of this model. It is a static dashboard with no logic.

# Order placement: check and reserve

This project models the order-placement sequence of the `CreateOrderService`
(`src/modules/orders/services/CreateOrderService.ts`) and proves properties about it.
A customer asks for a list of items, each a product id and a quantity. The service
does the following, in order:

1. It checks that the customer exists.
2. It looks up the requested products in one batch and rejects the order when the lookup returns nothing.
3. It rejects the order when a requested id was not returned, naming the first such item in request order.
4. It rejects the order when an item asks for more than the looked-up stock, naming the first such item in request order.
5. It builds one order line per item, with the price read at order time.
6. It persists the order.
7. It writes, for each item, the looked-up stock minus the requested quantity.

The model has three modules:

- `Catalog` (`catalog.dfy`) holds the product store: a map from product id to price and stock. `ApplyUpdates` is the repository's quantity update. It applies its entries in order, so the later write wins.
- `CreateOrderRules` (`create_order_rules.dfy`) holds the pure steps. These are the `filter`/`map` expressions of the source: `Inexistent`, `Matches`/`FirstMatch`, `ShortItems`, `Lines` and `StockUpdates`. `Decide` runs the whole check sequence. The lemmas state what the sequence guarantees.
- `CreateOrder` (`create_order_service.dfy`) holds the class `CreateOrderService`. Its fields are the state of the three stores: the customers, the product map and the order sequence. `Execute` runs the steps one after another and performs the two writes. It is proved equal to `Decide` and to `ApplyUpdates`.

The batch lookup `findAllById` is foreign code. `Execute` receives its result as the
parameter `resolved` and requires only the lookup's contract (`Resolves`): every
returned product is a stored product, as the store holds it, and its id was requested.
The lookup may return the products in any order. It is not required to return every
stored product; the lemma `CompleteLookupErrors` states what follows when it does.

## Model

| member | source | states |
|---|---|---|
| `Catalog.ApplyUpdates` | src/modules/orders/services/CreateOrderService.ts:86 | The quantity update keeps the set of products and every price; it only changes quantities |
| `Catalog.UntouchedStockKept` | src/modules/orders/services/CreateOrderService.ts:86 | A product that no update entry names keeps its record |
| `Catalog.LastWriteWins` | src/modules/orders/services/CreateOrderService.ts:79-86 | The last entry naming a product sets that product's new quantity; its price is kept |
| `Catalog.NonNegativeUpdatesKeepStock` | src/modules/orders/services/CreateOrderService.ts:79-86 | Writing only non-negative quantities keeps every stock level non-negative |
| `CreateOrderRules.Inexistent` | src/modules/orders/services/CreateOrderService.ts:44-48 | The result holds only request items whose id was not looked up. It holds every such item. It is empty exactly when every item's id was looked up |
| `CreateOrderRules.Matches` | src/modules/orders/services/CreateOrderService.ts:58 | The result holds only looked-up products with the given id. It is non-empty whenever the id is among the looked-up ids |
| `CreateOrderRules.FirstMatch` | src/modules/orders/services/CreateOrderService.ts:58 | Index 0 of the per-item filter is in bounds once the id was looked up. The product found carries that id and comes from the lookup |
| `CreateOrderRules.ShortItems` | src/modules/orders/services/CreateOrderService.ts:56-60 | The result holds only items asking for strictly more than the looked-up quantity. It holds every such item. It is empty exactly when no item does |
| `CreateOrderRules.FirstMissingIsHead` | src/modules/orders/services/CreateOrderService.ts:46-52 | The first item, in request order, whose id was not looked up is the head of the missing-items list |
| `CreateOrderRules.HeadIsFirstMissing` | src/modules/orders/services/CreateOrderService.ts:46-52 | The head of the missing-items list is the first missing item in request order |
| `CreateOrderRules.FirstShortIsHead` | src/modules/orders/services/CreateOrderService.ts:56-64 | The first item, in request order, that asks for more than is available is the head of the short-items list |
| `CreateOrderRules.HeadIsFirstShort` | src/modules/orders/services/CreateOrderService.ts:56-64 | The head of the short-items list is the first short item in request order |
| `CreateOrderRules.FirstMatchIsFirst` | src/modules/orders/services/CreateOrderService.ts:71 | The per-item lookup yields the first looked-up product with the id, whatever follows it |
| `CreateOrderRules.FirstMatchIsStored` | src/modules/orders/services/CreateOrderService.ts:38 | Under the lookup's contract, the per-item lookup yields the store's current record for the id |
| `CreateOrderRules.InexistentSameIds` | src/modules/orders/services/CreateOrderService.ts:44-48 | The missing-items list depends only on which ids were looked up, not on their order |
| `CreateOrderRules.ShortItemsSameStock` | src/modules/orders/services/CreateOrderService.ts:56-60 | Two lookups holding only stored records agree on the short-items list |
| `CreateOrderRules.ShapingSameStock` | src/modules/orders/services/CreateOrderService.ts:68-84 | Two lookups holding only stored records give the same order lines and stock updates |
| `CreateOrderRules.LinesKeepTotalQuantity` | src/modules/orders/services/CreateOrderService.ts:68-72 | The quantities of the order lines add up to the requested quantities |
| `CreateOrderRules.GatesComeFirst` | src/modules/orders/services/CreateOrderService.ts:32-42 | Customer-not-found happens exactly when the customer is missing. No-products happens exactly when the customer exists and the lookup is empty |
| `CreateOrderRules.MissingProductReported` | src/modules/orders/services/CreateOrderService.ts:44-54 | Product-not-found(id) happens exactly when both gates pass and id is the id of the first item, in request order, whose product was not looked up |
| `CreateOrderRules.InsufficientStockReported` | src/modules/orders/services/CreateOrderService.ts:56-66 | Insufficient-stock(id) happens exactly when both gates pass and every product was found, and id is the id of the first item, in request order, that asks for strictly more than the looked-up stock |
| `CreateOrderRules.AcceptedExactlyWhenValid` | src/modules/orders/services/CreateOrderService.ts:32-66 | The order is accepted exactly when the customer exists, the lookup is non-empty, every product was found and no item asks for more than is available (asking for exactly the stock is allowed) |
| `CreateOrderRules.AcceptedFollowsRequest` | src/modules/orders/services/CreateOrderService.ts:68-84 | On success there is one line and one update per item, in request order. A line keeps the item's id and quantity and takes the store's price at call time. An update is the store's stock minus the requested quantity, which is never negative |
| `CreateOrderRules.AcceptedStockLevel` | src/modules/orders/services/CreateOrderService.ts:79-86 | On success a requested product's stock becomes its pre-order stock minus the quantity of the last item naming it |
| `CreateOrderRules.AcceptedLeavesOthers` | src/modules/orders/services/CreateOrderService.ts:79-86 | On success a product the request does not name keeps its record |
| `CreateOrderRules.AcceptedKeepsStockNonNegative` | src/modules/orders/services/CreateOrderService.ts:56-86 | On success no stock level becomes negative if none was before |
| `CreateOrderRules.LookupOrderIrrelevant` | src/modules/orders/services/CreateOrderService.ts:38-84 | Two lookups that meet the lookup's contract and return the same ids give the same outcome, whatever their order |
| `CreateOrderRules.CompleteLookupErrors` | src/modules/orders/services/CreateOrderService.ts:38-54 | With a complete lookup, product-not-found names a requested product that the store does not hold. No-products happens exactly when the store holds none of the requested products, which includes an empty request |
| `CreateOrderRules.RepeatedProductNotCumulative` | src/modules/orders/services/CreateOrderService.ts:56-86 | Two items of 2 units of one product pass against a stock of 3. The stock ends at 1, although 4 units were ordered |
| `CreateOrder.CreateOrderService.constructor` | src/modules/orders/services/CreateOrderService.ts:22-29 | The service starts over the given customers and products with no orders |
| `CreateOrder.CreateOrderService.Execute` | src/modules/orders/services/CreateOrderService.ts:31-89 | A rejection returns the error and writes nothing. A success appends one order, with a fresh id, the customer and the lines, then applies the stock updates. It keeps every stock level non-negative and leaves the customers unchanged |

## Where the code and the design description differ

The design description of this service says some things that the code does not do. The model follows the code in each case.

- The description states that, for every product, the sum of the requested quantities stays within the pre-order stock. It also states that the new stock is the old stock minus the requested quantity. The code checks each item on its own against the pre-order stock. When one product appears in several items, it writes one update per item, and the later write wins. `RepeatedProductNotCumulative` shows an accepted order that asks for more than the stock. `AcceptedStockLevel` states the stock level the code actually produces.
- The description says one stock update per distinct product. The code sends one entry per request item.
- The description says the lookup query is deduplicated. The code passes the request list unchanged. The model does not depend on this, because the lookup is given only by its contract.

## Left out

- Dependency injection and decorators: this is wiring with no behaviour. The constructor takes the store contents instead.
- The persistence layer: the TypeORM `Order` entity and the repository implementations are not part of this model. Customers become a set of ids and products a map from id to price and stock. Orders become a sequence. `findAllById` is given only by its contract, and `updateQuantity` is modelled as sequential writes.
- Order ids: the store's generated id is modelled as the position in the order sequence. This keeps ids unique, which is all the service relies on.
- The customer record: an order stores the customer's id rather than the customer object.
- `async`/`await` and the race between the stock check and the update under concurrent requests: one call is modelled, sequentially.
- Store-level failures, such as a failed insert or update, and the atomicity of the two writes between themselves: these belong to the persistence layer.
- Error message texts: each error becomes a variant that carries the offending id.
- Prices: a price is only copied, so it is modelled as an integer rather than a decimal.
- Quantity types: JavaScript numbers become unbounded integers. Non-integer and out-of-range quantities are not modelled.

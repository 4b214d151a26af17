/** The order placement service: it reads the customer and product stores, runs the
    checks, and on success writes one order and then the new stock levels. */
module CreateOrder {
  import opened Catalog
  import opened CreateOrderRules

  type OrderId = nat

  /** A persisted order: its id, the customer it belongs to, and its lines. */
  datatype Order = Order(id: OrderId, customer: CustomerId, lines: seq<OrderLine>)

  /** What placing an order returns: the persisted order, or the business error. */
  datatype PlaceResult = Err(error: Error) | Ok(order: Order)

  /** The service together with the state of the three stores it uses: the customers
      that exist, the product catalog, and the orders placed so far. */
  class CreateOrderService {
    var customers: set<CustomerId>
    var products: map<ProductId, Stock>
    var orders: seq<Order>

    /** The order store hands out ids in sequence, so every order has its own id. */
    ghost predicate Valid()
      reads this
    {
      forall i :: 0 <= i < |orders| ==> orders[i].id == i
    }

    constructor (customers: set<CustomerId>, products: map<ProductId, Stock>)
      ensures Valid()
      ensures this.customers == customers && this.products == products && orders == []
    {
      this.customers := customers;
      this.products := products;
      orders := [];
    }

    /** Places an order for customerId. The products the batch lookup returned for the
        request are given as resolved. A rejected request writes nothing; an accepted
        one appends one order and then applies one stock update per request item. */
    method Execute(customerId: CustomerId, items: seq<Item>, resolved: seq<Product>) returns (r: PlaceResult)
      requires Valid()
      requires Resolves(products, items, resolved)
      modifies this
      ensures Valid()
      ensures customers == old(customers)
      ensures match Decide(customerId in old(customers), items, resolved)
        case Rejected(e) =>
          && r == Err(e)
          && orders == old(orders)
          && products == old(products)
        case Accepted(lines, updates) =>
          && r == Ok(Order(|old(orders)|, customerId, lines))
          && orders == old(orders) + [r.order]
          && (forall i :: 0 <= i < |updates| ==> updates[i].id in old(products))
          && products == ApplyUpdates(old(products), updates)
      ensures r.Ok? ==> forall o :: o in old(orders) ==> o.id != r.order.id
      ensures NonNegativeStock(old(products)) ==> NonNegativeStock(products)
    {
      if customerId !in customers {
        return Err(CustomerNotFound);
      }
      if |resolved| == 0 {
        return Err(NoProductsFound);
      }
      var missing := Inexistent(items, ResolvedIds(resolved));
      if |missing| > 0 {
        return Err(ProductNotFound(missing[0].id));
      }
      var short := ShortItems(items, resolved);
      if |short| > 0 {
        return Err(InsufficientStock(short[0].id));
      }
      var lines := Lines(items, resolved);
      var order := Order(|orders|, customerId, lines);
      orders := orders + [order];
      var updates := StockUpdates(items, resolved);
      AcceptedFollowsRequest(products, true, items, resolved);
      if NonNegativeStock(products) {
        AcceptedKeepsStockNonNegative(products, true, items, resolved);
      }
      products := ApplyUpdates(products, updates);
      return Ok(order);
    }
  }

  /** Scenario: one product with 10 units at price 5; ordering 3 of them succeeds, the
      order has the single line (p1, 3, 5), and 7 units remain. */
  method PlaceSingleItem()
  {
    var service := new CreateOrderService({"c1"}, map["p1" := Stock(5, 10)]);
    var items := [Item("p1", 3)];
    assert RequestedIds(items) == {"p1"};
    var r := service.Execute("c1", items, [Product("p1", 5, 10)]);
    assert ResolvedIds([Product("p1", 5, 10)]) == ["p1"];
    assert r == Ok(Order(0, "c1", [OrderLine("p1", 3, 5)]));
    LastWriteWins(map["p1" := Stock(5, 10)], [StockUpdate("p1", 7)], 0);
    assert service.products["p1"] == Stock(5, 7);
  }
}

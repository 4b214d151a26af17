/** The validation and shaping steps of order placement, as pure functions over the
    request items and the products the batch lookup returned, and what they guarantee. */
module CreateOrderRules {
  import opened Catalog

  type CustomerId = string

  /** One entry of the request: the product asked for and how many units. */
  datatype Item = Item(id: ProductId, quantity: int)

  /** A product row as the batch lookup returns it. */
  datatype Product = Product(id: ProductId, price: int, quantity: int)

  /** A line of the persisted order; its price is the one read at order time. */
  datatype OrderLine = OrderLine(productId: ProductId, quantity: int, price: int)

  /** The business errors order placement reports, with the offending product where there is one. */
  datatype Error =
    | CustomerNotFound
    | NoProductsFound
    | ProductNotFound(id: ProductId)
    | InsufficientStock(id: ProductId)

  /** What the checks decide: an error, or the order lines to persist and the stock levels to write. */
  datatype Decision =
    | Rejected(error: Error)
    | Accepted(lines: seq<OrderLine>, updates: seq<StockUpdate>)

  function RequestedIds(items: seq<Item>): set<ProductId>
  {
    set x | x in items :: x.id
  }

  /** The batch lookup's contract: it returns only stored products, each as the store
      holds it, and only products the request names. It may return them in any order. */
  ghost predicate Resolves(stock: map<ProductId, Stock>, items: seq<Item>, resolved: seq<Product>)
  {
    && Stored(stock, resolved)
    && forall p :: p in resolved ==> p.id in RequestedIds(items)
  }

  /** Every looked-up product is a stored product, as the store holds it. */
  ghost predicate Stored(stock: map<ProductId, Stock>, resolved: seq<Product>)
  {
    forall p :: p in resolved ==> p.id in stock && stock[p.id] == Stock(p.price, p.quantity)
  }

  /** The lookup left out no stored product that the request names. */
  ghost predicate Complete(stock: map<ProductId, Stock>, items: seq<Item>, resolved: seq<Product>)
  {
    forall x :: x in items && x.id in stock ==> x.id in ResolvedIds(resolved)
  }

  /** The ids of the looked-up products, in lookup order. */
  function ResolvedIds(resolved: seq<Product>): seq<ProductId>
  {
    seq(|resolved|, i requires 0 <= i < |resolved| => resolved[i].id)
  }

  /** The request items whose product id the lookup did not return, in request order. */
  function Inexistent(items: seq<Item>, ids: seq<ProductId>): (r: seq<Item>)
    ensures forall x :: x in r ==> x in items && x.id !in ids
    ensures forall i :: 0 <= i < |items| && items[i].id !in ids ==> items[i] in r
    ensures r == [] <==> forall x :: x in items ==> x.id in ids
  {
    if items == [] then []
    else
      assert forall i :: 1 <= i < |items| ==> items[i] == items[1..][i - 1];
      if items[0].id in ids then Inexistent(items[1..], ids)
      else [items[0]] + Inexistent(items[1..], ids)
  }

  /** The looked-up products that carry the given id, in lookup order; there is one
      whenever the id is among the looked-up ids. */
  function Matches(resolved: seq<Product>, id: ProductId): (r: seq<Product>)
    ensures forall p :: p in r ==> p in resolved && p.id == id
    ensures id in ResolvedIds(resolved) ==> r != []
  {
    if resolved == [] then []
    else
      assert ResolvedIds(resolved) == [resolved[0].id] + ResolvedIds(resolved[1..]);
      if resolved[0].id == id then [resolved[0]] + Matches(resolved[1..], id)
      else Matches(resolved[1..], id)
  }

  /** The first looked-up product with the given id. The id being among the looked-up
      ids is what keeps the index of the first match in bounds. */
  function FirstMatch(resolved: seq<Product>, id: ProductId): (p: Product)
    requires id in ResolvedIds(resolved)
    ensures p in resolved && p.id == id
  {
    Matches(resolved, id)[0]
  }

  /** Every request item's product id is among the looked-up ids. */
  predicate AllResolved(items: seq<Item>, resolved: seq<Product>)
  {
    forall x :: x in items ==> x.id in ResolvedIds(resolved)
  }

  /** The item asks for more units than the first looked-up product with its id has. */
  predicate OutOfStock(resolved: seq<Product>, x: Item)
    requires x.id in ResolvedIds(resolved)
  {
    FirstMatch(resolved, x.id).quantity < x.quantity
  }

  /** The request items that ask for more than is available, in request order. */
  function ShortItems(items: seq<Item>, resolved: seq<Product>): (r: seq<Item>)
    requires AllResolved(items, resolved)
    ensures forall x :: x in r ==> x in items && OutOfStock(resolved, x)
    ensures forall i :: 0 <= i < |items| && OutOfStock(resolved, items[i]) ==> items[i] in r
    ensures r == [] <==> forall x :: x in items ==> !OutOfStock(resolved, x)
  {
    if items == [] then []
    else
      assert forall i :: 1 <= i < |items| ==> items[i] == items[1..][i - 1];
      if OutOfStock(resolved, items[0]) then [items[0]] + ShortItems(items[1..], resolved)
      else ShortItems(items[1..], resolved)
  }

  /** The order lines: one per request item, with the item's id and quantity and the
      price of the first looked-up product with that id. */
  function Lines(items: seq<Item>, resolved: seq<Product>): seq<OrderLine>
    requires AllResolved(items, resolved)
  {
    seq(|items|, i requires 0 <= i < |items| =>
      OrderLine(items[i].id, items[i].quantity, FirstMatch(resolved, items[i].id).price))
  }

  /** The stock updates: one per request item, the looked-up quantity minus the requested one. */
  function StockUpdates(items: seq<Item>, resolved: seq<Product>): seq<StockUpdate>
    requires AllResolved(items, resolved)
  {
    seq(|items|, i requires 0 <= i < |items| =>
      StockUpdate(items[i].id, FirstMatch(resolved, items[i].id).quantity - items[i].quantity))
  }

  /** The whole check sequence, failing at the first violated rule. */
  function Decide(customerFound: bool, items: seq<Item>, resolved: seq<Product>): Decision
  {
    if !customerFound then Rejected(CustomerNotFound)
    else if |resolved| == 0 then Rejected(NoProductsFound)
    else
      var missing := Inexistent(items, ResolvedIds(resolved));
      if |missing| > 0 then Rejected(ProductNotFound(missing[0].id))
      else
        var short := ShortItems(items, resolved);
        if |short| > 0 then Rejected(InsufficientStock(short[0].id))
        else Accepted(Lines(items, resolved), StockUpdates(items, resolved))
  }

  /** Item k is the first item, in request order, whose product the lookup did not return. */
  predicate FirstMissingAt(items: seq<Item>, ids: seq<ProductId>, k: int)
  {
    && 0 <= k < |items|
    && items[k].id !in ids
    && forall j :: 0 <= j < k ==> items[j].id in ids
  }

  /** Item k is the first item, in request order, that asks for more than is available. */
  predicate FirstShortAt(items: seq<Item>, resolved: seq<Product>, k: int)
    requires AllResolved(items, resolved)
  {
    && 0 <= k < |items|
    && OutOfStock(resolved, items[k])
    && forall j :: 0 <= j < k ==> !OutOfStock(resolved, items[j])
  }

  /** Entry k is the first looked-up product with the given id. */
  predicate FirstWithIdAt(resolved: seq<Product>, id: ProductId, k: int)
  {
    && 0 <= k < |resolved|
    && resolved[k].id == id
    && forall j :: 0 <= j < k ==> resolved[j].id != id
  }

  /** Item k is the last item, in request order, that names its product. */
  predicate LastRequestAt(items: seq<Item>, k: int)
  {
    && 0 <= k < |items|
    && forall j :: k < j < |items| ==> items[j].id != items[k].id
  }

  // ---------------------------------------------------------------------------
  // The stage functions

  /** The first missing item is the head of the filtered list. */
  lemma {:induction false} FirstMissingIsHead(items: seq<Item>, ids: seq<ProductId>, k: int)
    requires FirstMissingAt(items, ids, k)
    ensures Inexistent(items, ids) != [] && Inexistent(items, ids)[0] == items[k]
  {
    if k > 0 {
      assert FirstMissingAt(items[1..], ids, k - 1);
      FirstMissingIsHead(items[1..], ids, k - 1);
    }
  }

  /** The head of the filtered list is the first missing item. */
  lemma {:induction false} HeadIsFirstMissing(items: seq<Item>, ids: seq<ProductId>)
    requires Inexistent(items, ids) != []
    ensures exists k :: FirstMissingAt(items, ids, k) && Inexistent(items, ids)[0] == items[k]
  {
    var rest := items[1..];
    if items[0].id !in ids {
      assert FirstMissingAt(items, ids, 0);
    } else {
      assert Inexistent(items, ids) == Inexistent(rest, ids);
      HeadIsFirstMissing(rest, ids);
      var k :| FirstMissingAt(rest, ids, k) && Inexistent(rest, ids)[0] == rest[k];
      forall j | 1 <= j < k + 1 ensures items[j].id in ids {
        assert items[j] == rest[j - 1];
      }
      assert FirstMissingAt(items, ids, k + 1);
    }
  }

  /** The first short item is the head of the filtered list. */
  lemma {:induction false} FirstShortIsHead(items: seq<Item>, resolved: seq<Product>, k: int)
    requires AllResolved(items, resolved)
    requires FirstShortAt(items, resolved, k)
    ensures ShortItems(items, resolved) != [] && ShortItems(items, resolved)[0] == items[k]
  {
    if k > 0 {
      assert FirstShortAt(items[1..], resolved, k - 1);
      FirstShortIsHead(items[1..], resolved, k - 1);
    }
  }

  /** The head of the filtered list is the first short item. */
  lemma {:induction false} HeadIsFirstShort(items: seq<Item>, resolved: seq<Product>)
    requires AllResolved(items, resolved)
    requires ShortItems(items, resolved) != []
    ensures exists k :: FirstShortAt(items, resolved, k) && ShortItems(items, resolved)[0] == items[k]
  {
    var rest := items[1..];
    assert AllResolved(rest, resolved) by {
      forall x | x in rest ensures x in items { }
    }
    if OutOfStock(resolved, items[0]) {
      assert FirstShortAt(items, resolved, 0);
    } else {
      assert ShortItems(items, resolved) == ShortItems(rest, resolved);
      HeadIsFirstShort(rest, resolved);
      var k :| FirstShortAt(rest, resolved, k) && ShortItems(rest, resolved)[0] == rest[k];
      forall j | 1 <= j < k + 1 ensures !OutOfStock(resolved, items[j]) {
        assert items[j] == rest[j - 1];
      }
      assert FirstShortAt(items, resolved, k + 1);
    }
  }

  /** The per-item lookup takes the first looked-up product with the id, whatever follows it. */
  lemma {:induction false} FirstMatchIsFirst(resolved: seq<Product>, id: ProductId, k: int)
    requires FirstWithIdAt(resolved, id, k)
    ensures id in ResolvedIds(resolved)
    ensures FirstMatch(resolved, id) == resolved[k]
  {
    assert ResolvedIds(resolved)[k] == id;
    assert ResolvedIds(resolved) == [resolved[0].id] + ResolvedIds(resolved[1..]);
    if k > 0 {
      assert FirstWithIdAt(resolved[1..], id, k - 1);
      FirstMatchIsFirst(resolved[1..], id, k - 1);
    }
  }

  /** Under the lookup's contract the per-item lookup yields the store's record. */
  lemma FirstMatchIsStored(stock: map<ProductId, Stock>, resolved: seq<Product>, id: ProductId)
    requires Stored(stock, resolved)
    requires id in ResolvedIds(resolved)
    ensures id in stock
    ensures FirstMatch(resolved, id) == Product(id, stock[id].price, stock[id].quantity)
  {
  }

  /** The filter of missing items looks only at which ids were looked up, not at their order. */
  lemma {:induction false} InexistentSameIds(items: seq<Item>, ids1: seq<ProductId>, ids2: seq<ProductId>)
    requires forall id :: id in ids1 <==> id in ids2
    ensures Inexistent(items, ids1) == Inexistent(items, ids2)
  {
    if items != [] {
      InexistentSameIds(items[1..], ids1, ids2);
    }
  }

  /** Two lookups that hold only stored records agree on which items are short. */
  lemma {:induction false} ShortItemsSameStock(stock: map<ProductId, Stock>, items: seq<Item>, r1: seq<Product>, r2: seq<Product>)
    requires Stored(stock, r1) && Stored(stock, r2)
    requires AllResolved(items, r1) && AllResolved(items, r2)
    ensures ShortItems(items, r1) == ShortItems(items, r2)
  {
    if items != [] {
      FirstMatchIsStored(stock, r1, items[0].id);
      FirstMatchIsStored(stock, r2, items[0].id);
      ShortItemsSameStock(stock, items[1..], r1, r2);
    }
  }

  /** Two lookups that hold only stored records give the same lines and updates. */
  lemma ShapingSameStock(stock: map<ProductId, Stock>, items: seq<Item>, r1: seq<Product>, r2: seq<Product>)
    requires Stored(stock, r1) && Stored(stock, r2)
    requires AllResolved(items, r1) && AllResolved(items, r2)
    ensures Lines(items, r1) == Lines(items, r2)
    ensures StockUpdates(items, r1) == StockUpdates(items, r2)
  {
  }

  function SumLineQuantities(lines: seq<OrderLine>): int
  {
    if lines == [] then 0 else lines[0].quantity + SumLineQuantities(lines[1..])
  }

  function SumItemQuantities(items: seq<Item>): int
  {
    if items == [] then 0 else items[0].quantity + SumItemQuantities(items[1..])
  }

  /** The order lines carry, in total, exactly the quantity requested. */
  lemma {:induction false} LinesKeepTotalQuantity(items: seq<Item>, resolved: seq<Product>)
    requires AllResolved(items, resolved)
    ensures SumLineQuantities(Lines(items, resolved)) == SumItemQuantities(items)
  {
    if items != [] {
      assert Lines(items, resolved)[1..] == Lines(items[1..], resolved);
      LinesKeepTotalQuantity(items[1..], resolved);
    }
  }

  // ---------------------------------------------------------------------------
  // The check sequence as a whole

  /** The customer gate and the empty-lookup gate come first, in that order. */
  lemma GatesComeFirst(customerFound: bool, items: seq<Item>, resolved: seq<Product>)
    ensures Decide(customerFound, items, resolved) == Rejected(CustomerNotFound) <==> !customerFound
    ensures Decide(customerFound, items, resolved) == Rejected(NoProductsFound)
        <==> customerFound && resolved == []
  {
  }

  /** A product-not-found error names exactly the first item, in request order, whose
      product the lookup did not return. */
  lemma MissingProductReported(customerFound: bool, items: seq<Item>, resolved: seq<Product>, id: ProductId)
    ensures Decide(customerFound, items, resolved) == Rejected(ProductNotFound(id))
        <==> && customerFound && resolved != []
             && exists k :: FirstMissingAt(items, ResolvedIds(resolved), k) && items[k].id == id
  {
    var ids := ResolvedIds(resolved);
    if Decide(customerFound, items, resolved) == Rejected(ProductNotFound(id)) {
      HeadIsFirstMissing(items, ids);
    }
    if customerFound && resolved != [] && exists k :: FirstMissingAt(items, ids, k) && items[k].id == id {
      var k :| FirstMissingAt(items, ids, k) && items[k].id == id;
      FirstMissingIsHead(items, ids, k);
    }
  }

  /** An insufficient-stock error names exactly the first item, in request order, that
      asks for more than the looked-up quantity, and only once every product was found. */
  lemma InsufficientStockReported(customerFound: bool, items: seq<Item>, resolved: seq<Product>, id: ProductId)
    ensures Decide(customerFound, items, resolved) == Rejected(InsufficientStock(id))
        <==> && customerFound && resolved != [] && AllResolved(items, resolved)
             && exists k :: FirstShortAt(items, resolved, k) && items[k].id == id
  {
    var ids := ResolvedIds(resolved);
    if AllResolved(items, resolved) {
      assert Inexistent(items, ids) == [];
    } else {
      var x :| x in items && x.id !in ids;
      assert Inexistent(items, ids) != [];
    }
    if Decide(customerFound, items, resolved) == Rejected(InsufficientStock(id)) {
      HeadIsFirstShort(items, resolved);
    }
    if && customerFound && resolved != [] && AllResolved(items, resolved)
       && exists k :: FirstShortAt(items, resolved, k) && items[k].id == id
    {
      var k :| FirstShortAt(items, resolved, k) && items[k].id == id;
      FirstShortIsHead(items, resolved, k);
    }
  }

  /** The order goes through exactly when the customer exists, the lookup found
      something, every item's product was found and no item asks for more than is available. */
  lemma AcceptedExactlyWhenValid(customerFound: bool, items: seq<Item>, resolved: seq<Product>)
    ensures Decide(customerFound, items, resolved).Accepted?
        <==> && customerFound && resolved != [] && AllResolved(items, resolved)
             && forall i :: 0 <= i < |items| ==> !OutOfStock(resolved, items[i])
  {
  }

  /** On success, the lines and the updates follow the request item by item: the line
      keeps the item's id and quantity and snapshots the store's price, and the update
      is the store's quantity minus the requested one, which is never negative. */
  lemma AcceptedFollowsRequest(stock: map<ProductId, Stock>, customerFound: bool, items: seq<Item>, resolved: seq<Product>)
    requires Resolves(stock, items, resolved)
    requires Decide(customerFound, items, resolved).Accepted?
    ensures var d := Decide(customerFound, items, resolved);
      && |d.lines| == |items| && |d.updates| == |items|
      && forall i :: 0 <= i < |items| ==>
           && items[i].id in stock
           && d.lines[i] == OrderLine(items[i].id, items[i].quantity, stock[items[i].id].price)
           && d.updates[i] == StockUpdate(items[i].id, stock[items[i].id].quantity - items[i].quantity)
           && d.updates[i].quantity >= 0
  {
  }

  /** On success the stock of a requested product becomes its pre-order stock minus the
      quantity of the LAST item naming it: repeated items are each checked and
      subtracted against the pre-order figure, and the later write wins. */
  lemma AcceptedStockLevel(stock: map<ProductId, Stock>, customerFound: bool, items: seq<Item>, resolved: seq<Product>, k: int)
    requires Resolves(stock, items, resolved)
    requires Decide(customerFound, items, resolved).Accepted?
    requires LastRequestAt(items, k)
    ensures var d := Decide(customerFound, items, resolved);
      && (forall i :: 0 <= i < |d.updates| ==> d.updates[i].id in stock)
      && items[k].id in stock
      && ApplyUpdates(stock, d.updates)[items[k].id]
         == Stock(stock[items[k].id].price, stock[items[k].id].quantity - items[k].quantity)
  {
    AcceptedFollowsRequest(stock, customerFound, items, resolved);
    var d := Decide(customerFound, items, resolved);
    LastWriteWins(stock, d.updates, k);
  }

  /** On success a product the request does not name keeps its record. */
  lemma AcceptedLeavesOthers(stock: map<ProductId, Stock>, customerFound: bool, items: seq<Item>, resolved: seq<Product>, id: ProductId)
    requires Resolves(stock, items, resolved)
    requires Decide(customerFound, items, resolved).Accepted?
    requires id in stock && id !in RequestedIds(items)
    ensures var d := Decide(customerFound, items, resolved);
      && (forall i :: 0 <= i < |d.updates| ==> d.updates[i].id in stock)
      && ApplyUpdates(stock, d.updates)[id] == stock[id]
  {
    AcceptedFollowsRequest(stock, customerFound, items, resolved);
    var d := Decide(customerFound, items, resolved);
    forall i | 0 <= i < |d.updates| ensures d.updates[i].id != id {
      assert items[i] in items;
    }
    UntouchedStockKept(stock, d.updates, id);
  }

  /** On success no stock level becomes negative. */
  lemma AcceptedKeepsStockNonNegative(stock: map<ProductId, Stock>, customerFound: bool, items: seq<Item>, resolved: seq<Product>)
    requires Resolves(stock, items, resolved)
    requires NonNegativeStock(stock)
    requires Decide(customerFound, items, resolved).Accepted?
    ensures var d := Decide(customerFound, items, resolved);
      && (forall i :: 0 <= i < |d.updates| ==> d.updates[i].id in stock)
      && NonNegativeStock(ApplyUpdates(stock, d.updates))
  {
    AcceptedFollowsRequest(stock, customerFound, items, resolved);
    var d := Decide(customerFound, items, resolved);
    NonNegativeUpdatesKeepStock(stock, d.updates);
  }

  /** The outcome does not depend on the order in which the lookup returns the products. */
  lemma LookupOrderIrrelevant(stock: map<ProductId, Stock>, customerFound: bool, items: seq<Item>, r1: seq<Product>, r2: seq<Product>)
    requires Resolves(stock, items, r1) && Resolves(stock, items, r2)
    requires forall id :: id in ResolvedIds(r1) <==> id in ResolvedIds(r2)
    ensures Decide(customerFound, items, r1) == Decide(customerFound, items, r2)
  {
    if r1 != [] {
      assert ResolvedIds(r1)[0] in ResolvedIds(r2);
    }
    if r2 != [] {
      assert ResolvedIds(r2)[0] in ResolvedIds(r1);
    }
    InexistentSameIds(items, ResolvedIds(r1), ResolvedIds(r2));
    if AllResolved(items, r1) {
      assert AllResolved(items, r2);
      ShortItemsSameStock(stock, items, r1, r2);
      ShapingSameStock(stock, items, r1, r2);
    }
  }

  /** When the lookup left out no stored product, a product-not-found error names a
      requested product the store does not hold, and the no-products error happens
      exactly when the store holds none of the requested products (an empty request included). */
  lemma CompleteLookupErrors(stock: map<ProductId, Stock>, customerFound: bool, items: seq<Item>, resolved: seq<Product>, id: ProductId)
    requires Resolves(stock, items, resolved)
    requires Complete(stock, items, resolved)
    ensures Decide(customerFound, items, resolved) == Rejected(ProductNotFound(id))
        ==> id in RequestedIds(items) && id !in stock
    ensures customerFound ==>
      (Decide(customerFound, items, resolved) == Rejected(NoProductsFound)
       <==> (forall x :: x in items ==> x.id !in stock))
  {
    MissingProductReported(customerFound, items, resolved, id);
    if resolved != [] {
      assert resolved[0] in resolved;
    }
  }

  /** A request naming the same product twice is checked item by item against the
      pre-order stock: two items of 2 units each pass against a stock of 3, the stored
      stock ends at 1 rather than -1, and 4 units are ordered out of 3. */
  lemma RepeatedProductNotCumulative()
    ensures var stock := map["p1" := Stock(5, 3)];
      var items := [Item("p1", 2), Item("p1", 2)];
      var resolved := [Product("p1", 5, 3)];
      var d := Decide(true, items, resolved);
      && Resolves(stock, items, resolved)
      && d == Accepted([OrderLine("p1", 2, 5), OrderLine("p1", 2, 5)],
                       [StockUpdate("p1", 1), StockUpdate("p1", 1)])
      && ApplyUpdates(stock, d.updates)["p1"] == Stock(5, 1)
      && SumItemQuantities(items) > stock["p1"].quantity
  {
    var stock := map["p1" := Stock(5, 3)];
    var items := [Item("p1", 2), Item("p1", 2)];
    var resolved := [Product("p1", 5, 3)];
    assert items[0] in items;
    assert RequestedIds(items) == {"p1"};
    assert ResolvedIds(resolved) == ["p1"];
    assert FirstMatch(resolved, "p1") == Product("p1", 5, 3);
    assert Inexistent(items, ResolvedIds(resolved)) == [];
    assert ShortItems(items, resolved) == [];
    var d := Decide(true, items, resolved);
    assert d.updates == [StockUpdate("p1", 1), StockUpdate("p1", 1)];
    LastWriteWins(stock, d.updates, 1);
  }
}

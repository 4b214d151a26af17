/** The product store as the order service sees it: a map from product id to the
    product's price and available quantity, and the repository's quantity update. */
module Catalog {

  type ProductId = string

  /** What the store keeps about one product: its price and its available stock. */
  datatype Stock = Stock(price: int, quantity: int)

  /** One entry handed to the repository's quantity update: the product and its new stock level. */
  datatype StockUpdate = StockUpdate(id: ProductId, quantity: int)

  /** Every stored product has a stock level of zero or more. */
  ghost predicate NonNegativeStock(stock: map<ProductId, Stock>)
  {
    forall id :: id in stock ==> stock[id].quantity >= 0
  }

  /** The quantity update applies its entries one after the other, so when one product
      appears twice the later entry is the one that stays. It only changes quantities:
      the set of products and every price are kept. */
  function ApplyUpdates(stock: map<ProductId, Stock>, updates: seq<StockUpdate>): (r: map<ProductId, Stock>)
    requires forall i :: 0 <= i < |updates| ==> updates[i].id in stock
    ensures r.Keys == stock.Keys
    ensures forall id :: id in stock ==> r[id].price == stock[id].price
    decreases |updates|
  {
    if updates == [] then stock
    else
      var u := updates[0];
      ApplyUpdates(stock[u.id := stock[u.id].(quantity := u.quantity)], updates[1..])
  }

  /** A product that no entry names keeps its record. */
  lemma {:induction false} UntouchedStockKept(stock: map<ProductId, Stock>, updates: seq<StockUpdate>, id: ProductId)
    requires forall i :: 0 <= i < |updates| ==> updates[i].id in stock
    requires id in stock
    requires forall i :: 0 <= i < |updates| ==> updates[i].id != id
    ensures ApplyUpdates(stock, updates)[id] == stock[id]
    decreases |updates|
  {
    if updates != [] {
      var u := updates[0];
      var next := stock[u.id := stock[u.id].(quantity := u.quantity)];
      UntouchedStockKept(next, updates[1..], id);
    }
  }

  /** The last entry naming a product decides that product's new quantity. */
  lemma {:induction false} LastWriteWins(stock: map<ProductId, Stock>, updates: seq<StockUpdate>, k: nat)
    requires forall i :: 0 <= i < |updates| ==> updates[i].id in stock
    requires k < |updates|
    requires forall j :: k < j < |updates| ==> updates[j].id != updates[k].id
    ensures ApplyUpdates(stock, updates)[updates[k].id]
         == Stock(stock[updates[k].id].price, updates[k].quantity)
    decreases |updates|
  {
    var u := updates[0];
    var next := stock[u.id := stock[u.id].(quantity := u.quantity)];
    if k == 0 {
      UntouchedStockKept(next, updates[1..], u.id);
    } else {
      LastWriteWins(next, updates[1..], k - 1);
    }
  }

  /** Writing only non-negative quantities keeps every stock level non-negative. */
  lemma {:induction false} NonNegativeUpdatesKeepStock(stock: map<ProductId, Stock>, updates: seq<StockUpdate>)
    requires forall i :: 0 <= i < |updates| ==> updates[i].id in stock
    requires NonNegativeStock(stock)
    requires forall i :: 0 <= i < |updates| ==> updates[i].quantity >= 0
    ensures NonNegativeStock(ApplyUpdates(stock, updates))
    decreases |updates|
  {
    if updates != [] {
      var u := updates[0];
      var next := stock[u.id := stock[u.id].(quantity := u.quantity)];
      NonNegativeUpdatesKeepStock(next, updates[1..]);
    }
  }
}

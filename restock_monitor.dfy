/** The polling loop of the restock monitor as the imperative code it is: the
    set of alerted product names is updated in place, product by product, in
    the order the products are configured. */
module RestockMonitor {
  import opened StockVerdict
  import opened AlertState

  class Monitor {
    /** The configured products, in configuration order. */
    const products: seq<Product>
    /** The names an alert has gone out for since the product was last out of stock. */
    var alerted: set<string>
    /** Every call of the alert sender so far, with how it ended. */
    ghost var log: seq<Alert>

    /** Only configured products are ever recorded. */
    ghost predicate Valid()
      reads this
    {
      alerted <= Names(products)
    }

    /** The monitor starts with nothing alerted. */
    constructor (products: seq<Product>)
      ensures this.products == products
      ensures alerted == {} && log == []
      ensures Valid()
    {
      this.products := products;
      alerted := {};
      log := [];
    }

    /** Checks one product whose page check gave `inStock`; `delivery` says how
        the alert sender ends if it is called.  The alert is sent before the name
        is recorded, so a sender that raises leaves it unrecorded. */
    method CheckOne(product: Product, inStock: bool, delivery: Delivery)
      requires Valid() && product in products
      modifies this
      ensures Valid()
      ensures alerted == Step(old(alerted), product, inStock, delivery).alerted
      ensures log == old(log) + Step(old(alerted), product, inStock, delivery).log
    {
      if inStock {
        if product.name !in alerted {
          log := log + [Alert(product, delivery)];
          if delivery == Delivered {
            alerted := alerted + {product.name};
          }
        }
      } else {
        alerted := alerted - {product.name};
      }
      assert product.name in Names(products) by {
        var i :| 0 <= i < |products| && products[i] == product;
      }
    }

    /** One polling cycle: every configured product is checked in order, with
        `pages[i]` the page check and `deliveries[i]` the sender's outcome for
        `products[i]`; a raising sender does not stop the cycle. */
    method Cycle(pages: seq<Page>, deliveries: seq<Delivery>)
      requires Valid()
      requires |pages| == |products| && |deliveries| == |products|
      modifies this
      ensures Valid()
      ensures alerted == Run(old(alerted), Checks(products, pages, deliveries)).alerted
      ensures log == old(log) + Run(old(alerted), Checks(products, pages, deliveries)).log
    {
      ghost var checks := Checks(products, pages, deliveries);
      for i := 0 to |products|
        invariant Valid()
        invariant alerted == Run(old(alerted), checks[..i]).alerted
        invariant log == old(log) + Run(old(alerted), checks[..i]).log
      {
        var inStock := IsInStock(pages[i]);
        CheckOne(products[i], inStock, deliveries[i]);
        RunAppend(old(alerted), checks[..i], [checks[i]]);
        assert checks[..i + 1] == checks[..i] + [checks[i]];
      }
      assert checks[..|products|] == checks;
    }
  }
}

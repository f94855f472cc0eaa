/** The stock verdict of the restock monitor: after a product page has loaded,
    three element queries are run on it, and only the number of matches of each
    query decides whether the product can be bought. */
module StockVerdict {

  /** What checking one product page yields.  `Loaded` carries the number of
      elements matched by each of the three queries: buttons whose text contains
      "Add to cart", spans whose text contains "Qty 1", and any element whose text
      contains "Out of stock".  `Error` stands for any exception raised while
      loading the page, waiting for its body or running the queries. */
  datatype Page =
    | Loaded(addToCart: nat, qtyOne: nat, outOfStock: nat)
    | Error

  /** The verdict of one check: a purchase indicator is present and no
      out-of-stock text is; a failed check is never reported as in stock. */
  function IsInStock(page: Page): (r: bool)
    // a failure while loading or querying the page yields False, never True
    ensures page.Error? ==> !r
    // any "Out of stock" match vetoes the verdict, whatever the other counts
    ensures page.Loaded? && page.outOfStock > 0 ==> !r
    // without an "Add to cart" or a "Qty 1" match there is nothing to buy
    ensures page.Loaded? && page.addToCart == 0 && page.qtyOne == 0 ==> !r
    // either indicator, with no out-of-stock text, is enough
    ensures page.Loaded? && (page.addToCart > 0 || page.qtyOne > 0) && page.outOfStock == 0 ==> r
  {
    match page
    case Error => false
    case Loaded(addToCart, qtyOne, outOfStock) =>
      (addToCart > 0 || qtyOne > 0) && outOfStock == 0
  }
}

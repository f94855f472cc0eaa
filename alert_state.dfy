/** The alert-deduplication rule of the restock monitor, on values.  The state
    is the set of product names an alert has already gone out for; each check of
    one product may send one alert and updates the membership of that product's
    name, and nothing else.  A polling cycle, and any number of consecutive
    cycles, is a run of such checks. */
module AlertState {
  import opened StockVerdict

  /** A configured product: its display name and its page address. */
  datatype Product = Product(name: string, url: string)

  /** How a call of the alert sender ended: it returned, or it raised. */
  datatype Delivery = Delivered | Raised

  /** One call of the alert sender, in the order the calls were made. */
  datatype Alert = Alert(product: Product, delivery: Delivery)

  /** One product check: the product, what its page check found, and how the
      alert sender would end if it were called for this product. */
  datatype Check = Check(product: Product, page: Page, delivery: Delivery)

  /** The state after some checks, and the alert-sender calls they made. */
  datatype Outcome = Outcome(alerted: set<string>, log: seq<Alert>)

  /** The body of the polling loop for one product with the given verdict. */
  function Step(alerted: set<string>, product: Product, inStock: bool, delivery: Delivery): (r: Outcome)
    // only this product's name can change membership
    ensures r.alerted - {product.name} == alerted - {product.name}
    // the name is recorded exactly when the product is in stock and an alert for
    // it has gone out, now or earlier; a raising sender leaves it unrecorded
    ensures product.name in r.alerted <==> inStock && (product.name in alerted || delivery == Delivered)
    // the sender is called at most once, and only for an in-stock product not yet alerted
    ensures |r.log| <= 1
    ensures r.log != [] <==> inStock && product.name !in alerted
    ensures forall a | a in r.log :: a == Alert(product, delivery)
  {
    var name := product.name;
    if inStock then
      if name !in alerted then
        match delivery
        case Delivered => Outcome(alerted + {name}, [Alert(product, Delivered)])
        case Raised => Outcome(alerted, [Alert(product, Raised)])
      else
        Outcome(alerted, [])
    else
      Outcome(alerted - {name}, [])
  }

  /** The names of some products. */
  function Names(products: seq<Product>): set<string>
  {
    set i | 0 <= i < |products| :: products[i].name
  }

  /** The products some checks are about, in order. */
  function ProductsOf(checks: seq<Check>): seq<Product>
  {
    seq(|checks|, i requires 0 <= i < |checks| => checks[i].product)
  }

  /** The checks of a polling cycle over the configured products, in order. */
  function Checks(products: seq<Product>, pages: seq<Page>, deliveries: seq<Delivery>): (cs: seq<Check>)
    requires |pages| == |products| && |deliveries| == |products|
  {
    seq(|products|, i requires 0 <= i < |products| => Check(products[i], pages[i], deliveries[i]))
  }

  /** Runs the checks in order, each on the state the previous one left. */
  function Run(alerted: set<string>, checks: seq<Check>): (r: Outcome)
    // a name is only ever recorded for a product that was checked
    ensures r.alerted <= alerted + Names(ProductsOf(checks))
    // at most one sender call per check
    ensures |r.log| <= |checks|
    decreases |checks|
  {
    if checks == [] then
      Outcome(alerted, [])
    else
      var c := checks[0];
      var first := Step(alerted, c.product, IsInStock(c.page), c.delivery);
      var rest := Run(first.alerted, checks[1..]);
      assert ProductsOf(checks[1..]) == ProductsOf(checks)[1..];
      assert Names(ProductsOf(checks[1..])) <= Names(ProductsOf(checks)) by {
        forall n | n in Names(ProductsOf(checks[1..])) ensures n in Names(ProductsOf(checks)) {
          var i :| 0 <= i < |checks[1..]| && ProductsOf(checks[1..])[i].name == n;
          assert ProductsOf(checks)[i + 1].name == n;
        }
      }
      assert c.product.name in Names(ProductsOf(checks)) by {
        assert ProductsOf(checks)[0].name == c.product.name;
      }
      Outcome(rest.alerted, first.log + rest.log)
  }

  /** Running two sequences of checks one after the other is running their
      concatenation: consecutive polling cycles compose. */
  lemma {:induction false} RunAppend(alerted: set<string>, a: seq<Check>, b: seq<Check>)
    ensures Run(alerted, a + b).alerted == Run(Run(alerted, a).alerted, b).alerted
    ensures Run(alerted, a + b).log == Run(alerted, a).log + Run(Run(alerted, a).alerted, b).log
    decreases |a|
  {
    if a == [] {
      assert a + b == b;
    } else {
      var c := a[0];
      var first := Step(alerted, c.product, IsInStock(c.page), c.delivery);
      assert (a + b)[0] == c;
      assert (a + b)[1..] == a[1..] + b;
      RunAppend(first.alerted, a[1..], b);
    }
  }

  /** The entries of a sequence that satisfy a condition, in order. */
  function Filter<T>(s: seq<T>, keep: T -> bool): (r: seq<T>)
    ensures |r| <= |s|
    ensures forall x | x in r :: x in s && keep(x)
    decreases |s|
  {
    if s == [] then []
    else if keep(s[0]) then [s[0]] + Filter(s[1..], keep)
    else Filter(s[1..], keep)
  }

  lemma {:induction false} FilterAppend<T>(s: seq<T>, t: seq<T>, keep: T -> bool)
    ensures Filter(s + t, keep) == Filter(s, keep) + Filter(t, keep)
  {
    if s == [] {
      assert s + t == t;
    } else {
      assert (s + t)[0] == s[0];
      assert (s + t)[1..] == s[1..] + t;
      FilterAppend(s[1..], t, keep);
    }
  }

  /** The sender calls made for the product named `name`. */
  function AlertsFor(log: seq<Alert>, name: string): seq<Alert>
  {
    Filter(log, (a: Alert) => a.product.name == name)
  }

  /** The sender calls that returned, whatever the HTTP status of the response. */
  function Sent(log: seq<Alert>): seq<Alert>
  {
    Filter(log, (a: Alert) => a.delivery == Delivered)
  }

  /** The checks of the product named `name`. */
  function ChecksFor(checks: seq<Check>, name: string): seq<Check>
  {
    Filter(checks, (c: Check) => c.product.name == name)
  }

  /** Whether `name` is recorded, as a state that holds nothing else. */
  function Only(alerted: set<string>, name: string): set<string>
  {
    if name in alerted then {name} else {}
  }

  /** One check, seen from the name `name`: a check of that name acts on
      `Only(alerted, name)` exactly as on the whole state, and a check of another
      product leaves the name's membership alone and makes no call for it. */
  lemma StepProject(alerted: set<string>, c: Check, name: string)
    ensures var first := Step(alerted, c.product, IsInStock(c.page), c.delivery);
      if c.product.name == name then
        var firstOnly := Step(Only(alerted, name), c.product, IsInStock(c.page), c.delivery);
        firstOnly.alerted == Only(first.alerted, name) && firstOnly.log == first.log
        && AlertsFor(first.log, name) == first.log
      else
        Only(first.alerted, name) == Only(alerted, name) && AlertsFor(first.log, name) == []
  {
  }

  /** What a run does to one name depends only on that name's own checks and
      on whether it was recorded at the start: the checks of other products, in
      whatever order they interleave, change neither its membership nor the
      sender calls made for it. */
  lemma {:induction false} ProjectRun(alerted: set<string>, checks: seq<Check>, name: string)
    ensures name in Run(alerted, checks).alerted
        <==> name in Run(Only(alerted, name), ChecksFor(checks, name)).alerted
    ensures AlertsFor(Run(alerted, checks).log, name)
         == Run(Only(alerted, name), ChecksFor(checks, name)).log
    decreases |checks|
  {
    var byName := (c: Check) => c.product.name == name;
    var alertFor := (a: Alert) => a.product.name == name;
    if checks != [] {
      var c := checks[0];
      var first := Step(alerted, c.product, IsInStock(c.page), c.delivery);
      var rest := Run(first.alerted, checks[1..]);
      assert Run(alerted, checks) == Outcome(rest.alerted, first.log + rest.log);
      ProjectRun(first.alerted, checks[1..], name);
      FilterAppend(first.log, rest.log, alertFor);
      StepProject(alerted, c, name);
      assert ChecksFor(checks, name) == if byName(c) then [c] + ChecksFor(checks[1..], name) else ChecksFor(checks[1..], name);
      if c.product.name == name {
        assert ([c] + ChecksFor(checks[1..], name))[1..] == ChecksFor(checks[1..], name);
      }
    }
  }

  /** While every check of a product finds it in stock, at most one alert for it
      goes out, and none when it was already alerted at the start; checks of
      other products in between do not matter. */
  lemma {:induction false} AtMostOneAlertPerStreak(alerted: set<string>, checks: seq<Check>, name: string)
    requires forall i | 0 <= i < |checks| && checks[i].product.name == name :: IsInStock(checks[i].page)
    ensures |Sent(AlertsFor(Run(alerted, checks).log, name))| <= 1
    ensures name in alerted ==> AlertsFor(Run(alerted, checks).log, name) == []
    decreases |checks|
  {
    if checks != [] {
      var c := checks[0];
      var first := Step(alerted, c.product, IsInStock(c.page), c.delivery);
      var rest := Run(first.alerted, checks[1..]);
      assert Run(alerted, checks) == Outcome(rest.alerted, first.log + rest.log);
      AtMostOneAlertPerStreak(first.alerted, checks[1..], name);
      var alertFor := (a: Alert) => a.product.name == name;
      var sent := (a: Alert) => a.delivery == Delivered;
      FilterAppend(first.log, rest.log, alertFor);
      FilterAppend(AlertsFor(first.log, name), AlertsFor(rest.log, name), sent);
      if first.log != [] {
        assert first.log == [Alert(c.product, c.delivery)] by {
          assert first.log[0] in first.log;
        }
      }
      if c.product.name == name && name !in alerted && c.delivery == Delivered {
        // the alert goes out now and the name is recorded for the rest of the streak
        assert AlertsFor(rest.log, name) == [];
      }
    }
  }

  /** A product that is in stock, then out of stock, then in stock again, with
      both alerts delivered, gets exactly two alerts, whatever other products
      are checked in between. */
  lemma InStockOutInStockAlertsTwice(alerted: set<string>, checks: seq<Check>, name: string,
                                     first: Check, second: Check, third: Check)
    requires name !in alerted
    requires ChecksFor(checks, name) == [first, second, third]
    requires IsInStock(first.page) && first.delivery == Delivered
    requires !IsInStock(second.page)
    requires IsInStock(third.page) && third.delivery == Delivered
    ensures Sent(AlertsFor(Run(alerted, checks).log, name)) == [Alert(first.product, Delivered), Alert(third.product, Delivered)]
  {
    ProjectRun(alerted, checks, name);
    var three := [first, second, third];
    assert first.product.name == name && second.product.name == name && third.product.name == name by {
      assert first in three && second in three && third in three;
      assert forall x | x in three :: x in ChecksFor(checks, name);
    }
    var a1, a3 := Alert(first.product, Delivered), Alert(third.product, Delivered);
    var s1 := Step({}, first.product, IsInStock(first.page), first.delivery);
    assert s1 == Outcome({name}, [a1]);
    var s2 := Step(s1.alerted, second.product, IsInStock(second.page), second.delivery);
    assert s2 == Outcome({}, []);
    var s3 := Step(s2.alerted, third.product, IsInStock(third.page), third.delivery);
    assert s3 == Outcome({name}, [a3]);
    assert three[1..] == [second, third] && three[1..][1..] == [third];
    assert Run(s2.alerted, [third]) == Outcome({name}, [a3]);
    assert Run(s1.alerted, [second, third]) == Outcome({name}, [a3]);
    assert Run({}, three) == Outcome({name}, [a1, a3]);
    assert Only(alerted, name) == {};
    var sent := (a: Alert) => a.delivery == Delivered;
    assert [a1, a3][1..] == [a3];
    assert Filter([a3], sent) == [a3];
    assert Filter([a1, a3], sent) == [a1, a3];
  }

  /** A sender that raises leaves the product unrecorded, so the next check
      that finds it in stock calls the sender again. */
  lemma FailedAlertIsRetried(alerted: set<string>, checks: seq<Check>, name: string, first: Check, second: Check)
    requires name !in alerted
    requires ChecksFor(checks, name) == [first, second]
    requires IsInStock(first.page) && first.delivery == Raised
    requires IsInStock(second.page)
    ensures AlertsFor(Run(alerted, checks).log, name) == [Alert(first.product, Raised), Alert(second.product, second.delivery)]
    ensures name in Run(alerted, checks).alerted <==> second.delivery == Delivered
  {
    ProjectRun(alerted, checks, name);
    var two := [first, second];
    assert first.product.name == name && second.product.name == name by {
      assert first in two && second in two;
      assert forall x | x in two :: x in ChecksFor(checks, name);
    }
    var a1, a2 := Alert(first.product, Raised), Alert(second.product, second.delivery);
    var s1 := Step({}, first.product, IsInStock(first.page), first.delivery);
    assert s1 == Outcome({}, [a1]);
    var s2 := Step(s1.alerted, second.product, IsInStock(second.page), second.delivery);
    assert s2.log == [a2];
    assert two[1..] == [second];
    assert Run(s1.alerted, [second]) == Outcome(s2.alerted, [a2]);
    assert Run({}, two) == Outcome(s2.alerted, [a1, a2]);
    assert Only(alerted, name) == {};
  }

  /** A failed page check reads as out of stock: it clears an existing alert,
      so the next check that finds the product in stock alerts again. */
  lemma ErrorResetsAlert(alerted: set<string>, product: Product, delivery: Delivery, page: Page, again: Delivery)
    requires product.name in alerted
    requires IsInStock(page)
    ensures product.name !in Run(alerted, [Check(product, Error, delivery)]).alerted
    ensures Run(alerted, [Check(product, Error, delivery), Check(product, page, again)]).log == [Alert(product, again)]
  {
  }
}

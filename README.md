# Target restock monitor, modelled in Dafny

The monitor polls a fixed list of product pages. For each product, it loads the page and decides whether the product is in stock. When an in-stock product has not been alerted on yet, it sends one Discord alert and records the product's name. Once a product is found out of stock, its name is forgotten, so the next restock alerts again.

The model has three modules:

- `StockVerdict` (`stock_verdict.dfy`): the page verdict of `is_in_stock`. A page check yields either the number of matches of the three element queries ("Add to cart" buttons, "Qty 1" spans, "Out of stock" text), or `Error` for any exception raised while loading or querying the page. `IsInStock` is the Boolean verdict.
- `AlertState` (`alert_state.dfy`): the alert rule on values. `Step` is the body of the polling loop for one product. `Run` applies `Step` to a sequence of checks. A polling cycle is a `Run` over the configured products. Consecutive cycles are a `Run` over the concatenated checks (`RunAppend`). The lemmas cover several checks: deduplication while in stock, re-alerting after an out-of-stock reading, retry after a failed send, and independence of products.
- `RestockMonitor` (`restock_monitor.dfy`): the loop as imperative code. `Monitor` holds the configured products and the set `alerted`, which its methods update in place. It also keeps a ghost log of every call to the alert sender. `CheckOne` is one iteration of the `for` loop and `Cycle` is one pass over all products. Both are proved against `Step` and `Run`.

The alert sender (`send_discord_alert`) is an external step with two outcomes: `Delivered` (it returned) or `Raised` (it threw). Both are entered in the log. A non-2xx response from the webhook does not raise, so it counts as `Delivered`, although that message did not reach the channel. "Alerts sent" in the lemmas below means sender calls that returned. Which outcome a send has is an input to the model: `Check.delivery`, or the `deliveries` argument of `Cycle`.

Any failure while loading or querying a page counts as "not in stock" (target_restock_monitor.py:47-49). So a failed check clears an existing alert, and the next successful check alerts again (`ErrorResetsAlert`).

## Model

| member | source | states |
|---|---|---|
| `StockVerdict.IsInStock` | target_restock_monitor.py:36-49 | Any failure while loading or querying yields False, never True. Any "Out of stock" match gives False whatever the other counts are. No "Add to cart" and no "Qty 1" match gives False. Either indicator with no out-of-stock match gives True. |
| `AlertState.Step` | target_restock_monitor.py:68-79 | Only the checked product's name can change membership. The name is recorded iff the product is in stock and was already recorded or its alert was delivered, so a raising sender leaves it unrecorded. The sender is called at most once, exactly when the product is in stock and not yet alerted, for this product with this outcome. An out-of-stock verdict removes the name. |
| `AlertState.Run` | target_restock_monitor.py:65-79 | After any sequence of checks, the recorded names are the starting ones plus names of checked products only. Each check makes at most one sender call. |
| `AlertState.RunAppend` | target_restock_monitor.py:64-80 | Running two sequences of checks one after the other equals running their concatenation, in both the final state and the log order. So consecutive polling cycles compose. |
| `AlertState.ProjectRun` | target_restock_monitor.py:69-77 | A product's final membership and the sender calls made for it depend only on that product's own checks and its starting membership. Checks of other products, interleaved in any order, change neither. |
| `AlertState.AtMostOneAlertPerStreak` | target_restock_monitor.py:68-74 | While every check of a product finds it in stock, at most one alert for it goes out. No sender call is made at all if it was already alerted at the start. Other products may be checked in between. |
| `AlertState.InStockOutInStockAlertsTwice` | target_restock_monitor.py:68-77 | For an unalerted product whose checks read in stock, out of stock, in stock (both sends delivered), exactly two alerts go out: the first and the third. Other products may be checked in between. |
| `AlertState.FailedAlertIsRetried` | target_restock_monitor.py:69-79 | If the first send raises, the name stays unrecorded. The next in-stock check calls the sender again, and the name is recorded iff that second send is delivered. |
| `AlertState.ErrorResetsAlert` | target_restock_monitor.py:46-77 | A failed page check clears an existing alert. The next in-stock check then sends a new alert. |
| `RestockMonitor.Monitor.constructor` | target_restock_monitor.py:34 | The monitor starts with no names recorded and an empty log, and the invariant holds. |
| `RestockMonitor.Monitor.CheckOne` | target_restock_monitor.py:66-79 | Updates `alerted` in place to exactly `Step`'s new state and appends exactly `Step`'s sender calls to the log. It keeps `alerted` a subset of the configured product names. |
| `RestockMonitor.Monitor.Cycle` | target_restock_monitor.py:65-79 | One pass over all configured products in order, continuing past a raising sender. The new `alerted` and the appended log equal `Run` over the cycle's checks, and `alerted` stays a subset of the configured names. |

## Left out

- Browser setup and lifecycle (Chrome options, driver creation, `driver.quit`): foreign library and process plumbing.
- `driver.get`, the wait for the page body and the XPath queries: browser I/O. The model takes only their results, as three match counts, or `Error` when any of them raised.
- The webhook POST and its message payload (text and bot username): network I/O. The model keeps only which product the send was for and whether it returned or raised.
- A send that raises after the webhook has already accepted the message is modelled as a send that did not go out (`Raised`). A real duplicate alert in that case is not captured.
- The sleeps (two seconds per page check, five minutes per cycle) and the endless `while True`: timing only. The model covers single cycles and any finite sequence of cycles, through `Run` and `RunAppend`.
- The `print` logging: the model assumes `print` never raises. It does not capture what a raising `print` would do. At line 70, the send would be skipped. At line 76, the `discard` at line 77 would be skipped, so the name would stay recorded. The `print` at line 79 is outside any `try`, so a raise there would end `main`.
- The configured product list is a parameter of `Monitor`. Names are dictionary keys in the source, so they are unique, but no result of the model depends on that.

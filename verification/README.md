# Orders page: edit session, derived total price and order filter

This project models the logic of the purchase-orders admin page (`OrdersPage.jsx`) in Dafny.
The page lists orders fetched from an order store. A dialog edits one order at a time. The
dialog keeps a draft copy of the order and re-derives the draft's total price whenever the
quantity, unit price or delivery charges change. Update sends the draft to the store, and
Delete removes an order.

Modules:

- `Decimal` (`decimal.dfy`) holds exact decimal numbers (`units × 10^-places`) and the exact
  arithmetic for `unitPrice * quantity + deliveryCharges`. It also holds the rounding that
  `toFixed(2)` applies.
- `NumberText` (`number_text.dfy`) models `parseInt` and `parseFloat` as prefix parsers.
  Each returns `None` where JavaScript returns NaN. The module also models `toFixed(2)`
  on an exact value.
- `Orders` (`orders.dfy`) holds the `Order` record and the form's `Draft`, the field-wise
  update done by `handleChange`, and the total-price recomputation (`calculateTotalPrice`).
- `Search` (`search.dfy`) models `filterOrders`: a case-insensitive substring filter on `orderId`.
- `OrdersPage` (`orders_page.dfy`) models the page as a state machine. `Step(page, event)`
  returns the next page state and the HTTP requests sent. A server reply is an event that
  carries only its outcome: a listing, or success/failure.

Behaviour of the page worth noting (the model follows the code):

- Cancel and a successful update only close the dialog. `selectedOrder` and the draft are
  not discarded (lines 51, 153, 227).
- `filterOrders` is never called. The search box only stores `searchTerm` (line 122), and the
  grid shows `filteredOrders` (line 127), which only `fetchOrders` sets (line 33). On every
  reachable page, the shown orders therefore equal the full listing, whatever is typed
  (`OrdersPage.ShownOrdersIgnoreSearch`).
- A fetched listing does not reset `searchTerm`.
- Opening the edit dialog copies the stored total price. The total is not recomputed until
  a price input changes.

## Model

| member | source | states |
|---|---|---|
| Decimal.Add | OrdersPage.jsx:76 | the sum of two decimals has exactly the value of the two added |
| Decimal.MulInt | OrdersPage.jsx:76 | unit price times the integer quantity, exactly |
| Decimal.RoundedCents | OrdersPage.jsx:79 | the hundredths shown are those nearest to the magnitude, a half going up |
| NumberText.ParseInt | OrdersPage.jsx:72 | parseInt gives a number exactly when a digit comes first, or directly after a leading '-' or '+' |
| NumberText.ParseFloat | OrdersPage.jsx:71-73 | parseFloat gives a number exactly when a digit, or a '.' and a digit, comes first or directly after a leading sign |
| NumberText.ParseIntNaN | OrdersPage.jsx:72 | an optional sign followed by no digit (a second sign included) reads as NaN |
| NumberText.ParseFloatNaN | OrdersPage.jsx:71-73 | an optional sign followed by neither a digit nor '.' and a digit (a second sign included) reads as NaN |
| NumberText.ParseIntOf | OrdersPage.jsx:72 | parseInt reads an optional sign and the leading digits and ignores the rest |
| NumberText.ParseFloatOf | OrdersPage.jsx:71-73 | parseFloat reads sign, whole digits, '.', fraction digits and ignores the rest |
| NumberText.ParseFloatWholeOf | OrdersPage.jsx:71-73 | without a '.', parseFloat reads the leading digits as a whole number |
| NumberText.ParseIntTruncatesParseFloat | OrdersPage.jsx:71-73 | parseInt of a text is parseFloat of it cut toward zero, NaN only when no digit precedes the point |
| NumberText.ToFixed2 | OrdersPage.jsx:79 | the text has a '.' three places from its end and starts with '-' exactly for a negative amount |
| NumberText.ToFixed2Layout | OrdersPage.jsx:79 | the text is an optional '-', the whole part without leading zeros, '.', and exactly two digits; its digits spell the rounded hundredths |
| NumberText.ToFixed2Sign | OrdersPage.jsx:79 | the text starts with '-' exactly when the value is below zero, "-0.00" included |
| NumberText.ToFixed2ReadsBack | OrdersPage.jsx:79 | the toFixed(2) text parses back to the signed rounded hundredths |
| NumberText.CentsReadBack | OrdersPage.jsx:79 | a signed amount of hundredths in toFixed(2) layout parses back to the same amount with two places |
| NumberText.ToFixed2Rounds | OrdersPage.jsx:79 | the hundredths toFixed(2) shows are the magnitude × 100 within one half (ties up) |
| NumberText.ToFixed2Shows | OrdersPage.jsx:79 | the toFixed(2) text reads back as the value rounded to two decimals |
| NumberText.ShowsRoundedExact | OrdersPage.jsx:79 | a value with at most two decimals is shown exactly |
| Orders.Set | OrdersPage.jsx:60-63 | entering a value overwrites exactly the named field and nothing else |
| Orders.DraftOf | OrdersPage.jsx:42 | the draft carries the order's identity keys and stored total |
| Orders.DraftRoundTrip | OrdersPage.jsx:40-44 | the draft copied from an order is that order field for field, and only its copy describes it |
| Orders.TotalPriceText | OrdersPage.jsx:70-87 | the total text is empty exactly when one of the three inputs reads as NaN |
| Orders.TotalPriceTextRounds | OrdersPage.jsx:75-80 | when all parse, the total reads back as unitPrice × quantity + deliveryCharges rounded to cents |
| Orders.TotalPriceTextExact | OrdersPage.jsx:75-80 | a total that is a whole number of cents is shown exactly |
| Orders.HandleChange | OrdersPage.jsx:58-68 | sets the named field; other fields and identity are kept; price inputs recompute the total from post-edit values; other fields keep it |
| Orders.NonPriceChangeIsLocal | OrdersPage.jsx:58-68 | editing itemName, supplierName or status changes only that field, total price included |
| Orders.PriceChangeClearsTotal | OrdersPage.jsx:65-85 | after a price-input edit the total is "" exactly when an updated input is NaN, whatever it was before |
| Orders.PriceChangeRoundsTotal | OrdersPage.jsx:65-80 | after a price-input edit with all inputs parsing, the total reads back as the exact updated total rounded |
| Orders.PriceChangeDeterministic | OrdersPage.jsx:65-80 | the recomputed total depends only on the three updated price inputs |
| Orders.ChangeKeepsTotalConsistent | OrdersPage.jsx:58-87 | once the total matches the price inputs, every further edit keeps it matching |
| Orders.QuantityChangeOfCopy | OrdersPage.jsx:58-80 | changing the quantity of a fresh copy yields the order with that quantity and the total recomputed from its prices |
| Orders.QuantityReadAsInteger | OrdersPage.jsx:72 | a quantity "3.7" gives the same total as "3" |
| Orders.TotalPriceExample | OrdersPage.jsx:70-80 | 10.5 × 3 + 2 is shown as "33.50" |
| Orders.TotalPriceScenarioExample | OrdersPage.jsx:70-80 | 1.00 × 20 + 5.00 is shown as "25.00" |
| Orders.TotalPriceClearedExample | OrdersPage.jsx:81-85 | a quantity "abc" clears the total |
| Search.ToLower | OrdersPage.jsx:91 | lower-casing keeps the length, leaves no capital, keeps every non-capital and maps each capital to its small letter |
| Search.ToLowerIdempotent | OrdersPage.jsx:91 | lower-casing twice is lower-casing once |
| Search.MatchIgnoresIdCase | OrdersPage.jsx:91 | an order matches exactly when its copy with a lower-cased orderId does |
| Search.IncludesIff | OrdersPage.jsx:91 | includes holds exactly when the term occurs at some index |
| Search.Filter | OrdersPage.jsx:89-94 | an order is in the result exactly when it is in the list and its lower-cased orderId contains the lower-cased term |
| Search.FilterIsSubsequence | OrdersPage.jsx:90-92 | the result is the orders at exactly the matching positions, in ascending order |
| Search.FilterAppend | OrdersPage.jsx:90-92 | filtering a concatenation is concatenating the filtered parts |
| Search.FilterEmptyTerm | OrdersPage.jsx:90-92 | an empty term keeps every order |
| Search.FilterIdempotent | OrdersPage.jsx:90-92 | filtering twice with one term equals filtering once |
| Search.FilterCaseInsensitive | OrdersPage.jsx:91 | terms equal up to case give the same result |
| Search.CaseInsensitiveExample | OrdersPage.jsx:91 | orderId "ORD-100" matches the term "ord-1" |
| OrdersPage.ApplyFilter | OrdersPage.jsx:89-94 | filterOrders replaces the shown orders with the matching listed orders in listing order and changes nothing else |
| OrdersPage.Listed | OrdersPage.jsx:31-37 | a listing replaces orders and shown orders; a failed fetch changes nothing; search term, dialog, selection and draft are kept |
| OrdersPage.Step | OrdersPage.jsx:25-105 | each event sends at most one request; local events send none and leave orders and shown orders alone |
| OrdersPage.Run | OrdersPage.jsx:25-105 | a run of local events sends nothing and leaves orders and shown orders alone |
| OrdersPage.InitialPageInvariant | OrdersPage.jsx:10-23 | the initial page satisfies the page invariant |
| OrdersPage.StepKeepsInvariant | OrdersPage.jsx:25-105 | every event keeps: dialog open only with a selection, draft id = selected id, shown = listed orders |
| OrdersPage.RunKeepsInvariant | OrdersPage.jsx:25-105 | every run of events keeps the page invariant |
| OrdersPage.UpdateTargetsSelectedOrder | OrdersPage.jsx:46-47 | with an order selected, Update sends exactly one PUT to its id whose body is the draft, carrying that id; nothing else is ever sent |
| OrdersPage.SearchDoesNotFilter | OrdersPage.jsx:122 | typing a search term stores it and leaves the shown orders unchanged |
| OrdersPage.ShownOrdersIgnoreSearch | OrdersPage.jsx:122-127 | on every reachable page the grid shows the whole listing |
| OrdersPage.BeginEdit | OrdersPage.jsx:40-44 | Edit opens the dialog, selects the order, copies it field for field, sends nothing |
| OrdersPage.EditTouchesDraftOnly | OrdersPage.jsx:58-68 | a field edit changes only the draft, only that field, and sends nothing |
| OrdersPage.CancelOnlyCloses | OrdersPage.jsx:227 | Cancel closes the dialog and changes nothing else, sending nothing |
| OrdersPage.FailedUpdateKeepsDraft | OrdersPage.jsx:46-56 | a failed update leaves the page, draft and open dialog as they were |
| OrdersPage.SuccessfulUpdate | OrdersPage.jsx:46-56 | a successful update closes the dialog and refetches; a listing replaces orders and shown orders |
| OrdersPage.FailedDeleteChangesNothing | OrdersPage.jsx:96-105 | a failed delete changes nothing |
| OrdersPage.DeleteIsNotOptimistic | OrdersPage.jsx:96-105 | Delete only sends the request; success only refetches |
| OrdersPage.EditThenCancelIsLocal | OrdersPage.jsx:40-68 | edit, any field edits, then Cancel: no request, orders and shown orders unchanged, dialog closed |
| OrdersPage.QuietThenSend | OrdersPage.jsx:25-105 | when the first two of three events send nothing, the run sends exactly what the third sends |
| OrdersPage.EditQuantityUpdate | OrdersPage.jsx:40-80 | open an order, set its quantity, press Update: one PUT to the order's id carrying the copy with that quantity and the recomputed total |
| OrdersPage.EditBoltScenario | OrdersPage.jsx:40-80 | editing the bolt order's quantity to "20" and pressing Update sends total "25.00" |

## Left out

- HTTP transport: axios calls become `Request` values and reply events. A failed reply
  carries no error detail. The `console.log`/`console.error` output is not modelled.
- Rendering: MUI layout, `AdminMenu`, and the status icon chosen on line 130 (display only)
  are not modelled.
- React timing: each handler is one atomic transition. State-update batching, the mount
  effect's lifecycle, and the closure over `updatedOrderData` (line 66) are not modelled
  beyond that. Overlapping in-flight requests are not modelled either.
- IEEE-754 doubles: the total is computed exactly. `toFixed(2)` rounds the exact value by
  its ECMAScript rule: split off the sign, then take the nearest hundredth, a tie going to
  the larger. A double can land on the other side of a tie (for example 1.005).
  `toFixed` switches to exponent notation at 1e21; that is not modelled.
- Number parsing: leading whitespace, exponents (`"1e3"`), `Infinity`, and the hex and radix
  forms of `parseInt` are not modelled. Such inputs parse only up to where the modelled
  grammar stops. Negative zero reads as zero.
- `toLowerCase`: only ASCII `A`-`Z` are folded.
- Record shape: every order field is text. Extra properties that the object spread on
  line 42 would copy are dropped. An order without an `orderId` (a TypeError at line 91)
  is not modelled.
- `status` accepts any text. The selector offers only "pending" and "approved"
  (lines 220-221), and the model does not restrict the value to those two.

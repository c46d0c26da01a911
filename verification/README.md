# Grocery ledger

This is a Dafny model of the in-memory ledger inside the `GroceryManagementUI` Swing frame.
The ledger holds three lists: products, customers and sales. Next to them it keeps the views the
frame maintains in step: the product table rows, the product and customer dropdowns, and the
revenue report. Five button handlers change this state:

- `addProduct` appends a product, or, after confirmation, adds stock to an existing product whose
  name matches ignoring case.
- `deleteProduct` and `deleteCustomer` remove the entry at the selected position.
- `addCustomer` appends a customer unless the phone is already registered.
- `makeSale` takes stock off the product with the selected name and records a sale.

`updateReport` then rebuilds the report from the sale history.

Each handler is a pure function from a `Ledger` and its inputs to a `Step`. A `Step` holds the
new ledger and an `Outcome` tag. Each tag stands for one of the message dialogs, or for one of
the silent early returns. The model is organised in five modules:

- `Text` (`text.dfy`): Java's `String.trim()`, which drops chars at or below U+0020, and
  `equalsIgnoreCase`, built from the per-character test of `regionMatches`.
- `Records` (`records.dfy`): the `Product`, `Customer` and `Sale` records and the three linear
  scans the handlers run: the case-insensitive name search, the exact name search and the phone
  search.
- `SalesReport` (`report.dfy`): the report. `UpdateReport` is the loop of `updateReport`, proved
  against a reference left-to-right sum `Revenue`.
- `Grocery` (`grocery.dfy`): the `Ledger`, the five handlers, and the invariant `Valid`.
  `Valid` says:
  - product names are distinct ignoring case;
  - phones are distinct;
  - the product table and the dropdowns mirror the lists in order, as the handlers keep them;
  - stored names and phones are non-empty and trimmed;
  - once a sale exists, the report is the report of the whole sale history.

  Each handler preserves `Valid`.
- `Session` (`session.dfy`): any sequence of button presses from the empty frame. It proves
  whole-run facts: the invariant holds, sales are append-only, there is exactly one sale per
  successful sale, and the revenue adds up. It also proves three worked scenarios:
  a Rice restock, an Oil shortage and an Oil sale.

Inputs are modelled as follows:

- Name and phone fields are raw text, and the model trims them as the handlers do.
- A numeric field is a `NumberField`: `Blank` when the trimmed text is empty, `Malformed` when
  the Java parser rejects it, or `Number(v)`.
- The "Product exists. Add stock?" answer is a boolean.
- A dropdown's selected item is an `Option<string>`, with `None` for Java's `null`.
- A dropdown's selected index is an `int`, which can be -1.

Prices and sale totals are integers in the smallest currency unit. This makes `qty * price`
and the revenue sum exact.

The model follows the code as written, including these behaviours:

- `addProduct` accepts negative prices and stocks.
- `makeSale` accepts a zero or negative quantity. A negative quantity raises the stock. With a
  positive price it records a sale with a negative total; with a zero or negative price the
  total is zero or positive. So stock is not non-negative at all times. With unbounded
  integers, it is non-negative only for the sold product, right after a successful sale.
- `makeSale` looks the product up by exact name, and it returns silently when no product
  matches. It never checks that the buyer is a registered customer: any selected dropdown item
  will do.
- An out-of-range delete index is not a reported error. `ArrayList.remove` throws before
  changing anything, so the model leaves the ledger unchanged with outcome `SelectionOutOfRange`.
- The report area starts empty. It is rebuilt only after a successful sale, so the model keeps
  `report == None` until the first sale.

## Model

| member | source | states |
|---|---|---|
| Text.LeadingBlanks | GroceryManagementUI.java:120 | counts the chars at or below U+0020 that open the text: every one of them is blank and the char after them is not |
| Text.TrailingBlanks | GroceryManagementUI.java:120 | counts the chars at or below U+0020 that close the text: every one of them is blank and the char before them is not |
| Text.Trim | GroceryManagementUI.java:120-123 | the trimmed field has no surrounding blanks, and it is empty exactly when every char of the field is blank (the `isEmpty()` test after `trim()`) |
| Text.LeadingBlanksOfPadded | GroceryManagementUI.java:120 | blank padding in front of a text that starts with a non-blank char is exactly what the leading count covers |
| Text.TrailingBlanksOfPadded | GroceryManagementUI.java:120 | blank padding after a text that ends with a non-blank char is exactly what the trailing count covers |
| Text.TrimRemovesPadding | GroceryManagementUI.java:195-197 | trimming any blank padding around trimmed text gives back exactly that text |
| Text.TrimOfTrimmed | GroceryManagementUI.java:120 | trimming leaves an already trimmed name as it is |
| Text.TrimIdempotent | GroceryManagementUI.java:195-196 | trimming a trimmed field changes nothing |
| Text.EqualsIgnoreCaseIsRegionMatch | GroceryManagementUI.java:132 | the char-by-char `equalsIgnoreCase` test holds exactly when both names fold to the same lower-case string |
| Text.EqualsIgnoreCaseReflexive | GroceryManagementUI.java:132 | every name matches itself ignoring case |
| Records.FindIgnoringCase | GroceryManagementUI.java:130-132 | the scan returns the first position whose name matches ignoring case, and None exactly when no product matches |
| Records.FindIgnoringCaseFirst | GroceryManagementUI.java:130-132 | a match at i with no match before it is exactly what the case-insensitive scan returns |
| Records.FindExact | GroceryManagementUI.java:274-276 | the scan returns the first position whose name equals the selected name exactly, and None exactly when no product has that name |
| Records.FindExactFirst | GroceryManagementUI.java:274-276 | a name at i with no equal name before it is exactly what the exact scan returns |
| Records.HasPhone | GroceryManagementUI.java:201-202 | the phone scan answers true exactly when some customer has exactly that phone |
| Records.FindExactOfDistinctName | GroceryManagementUI.java:265-276 | among names distinct ignoring case, the exact search for the name at position k finds k |
| SalesReport.RevenueSnoc | GroceryManagementUI.java:311 | recording one more sale raises the revenue by exactly that sale's total |
| SalesReport.RevenueAppend | GroceryManagementUI.java:308-312 | the revenue of a history split in two is the sum of the two parts' revenues |
| SalesReport.RevenueOfExtension | GroceryManagementUI.java:308-312 | when one history extends another, its revenue is the earlier revenue plus the totals of the appended sales |
| SalesReport.UpdateReport | GroceryManagementUI.java:306-315 | the report loop gives one line per sale in recording order (buyer, quantity, product, total), and the running sum equals the reference revenue |
| Grocery.InitialIsValid | GroceryManagementUI.java:9-11 | the empty frame satisfies the ledger invariant |
| Grocery.RemoveAt | GroceryManagementUI.java:155-157 | removal by position drops exactly that element and keeps the rest in order |
| Grocery.AddProduct | GroceryManagementUI.java:119-147 | "Fill all fields!" exactly when the trimmed name or a numeric field is empty; "Invalid number format!" exactly when all fields are filled and a number fails to parse; every outcome that is not a change leaves the ledger as it was; customers, sales and report are never touched |
| Grocery.Restock | GroceryManagementUI.java:134-135 | exactly product i's stock changes, by the given amount, in the list and in its table row; the names and prices in both, the other products, the dropdowns, customers, sales and report stay as they were |
| Grocery.AppendProduct | GroceryManagementUI.java:140-143 | the product is added at the end of the list and the table, and its name at the end of the dropdown; nothing else changes |
| Grocery.AddProductProceeds | GroceryManagementUI.java:120-129 | once every trimmed field is filled and both numbers parse, the handler goes on with the trimmed name and the parsed values |
| Grocery.AddParsed | GroceryManagementUI.java:130-143 | the add-or-merge step either appends, merges or is declined; a declined merge changes nothing, and customers, sales and report are never touched |
| Grocery.AddParsedAppends | GroceryManagementUI.java:140-143 | with no name match ignoring case, exactly `Product(name, price, stock)` is appended to the list and the table, and its name to the dropdown |
| Grocery.AddParsedMerges | GroceryManagementUI.java:130-136 | with a first match at i, a confirmed merge appends nothing, adds exactly the entered stock to product i and its table row, and keeps i's name and price and every other product |
| Grocery.AddParsedMergeDeclined | GroceryManagementUI.java:132-137 | with any match ignoring case, declining the merge leaves the ledger exactly as it was |
| Grocery.AppendProductKeepsValid | GroceryManagementUI.java:140-143 | appending a trimmed name that matches no product ignoring case keeps names distinct and the views in step |
| Grocery.RestockKeepsValid | GroceryManagementUI.java:134-135 | changing one product's stock in the list and its table row keeps the invariant |
| Grocery.AddParsedPreservesValid | GroceryManagementUI.java:130-143 | for a trimmed, non-empty name, appending and merging both keep the invariant |
| Grocery.AddProductPreservesValid | GroceryManagementUI.java:119-147 | every `addProduct` outcome keeps the invariant |
| Grocery.DeleteProduct | GroceryManagementUI.java:149-158 | an empty catalogue gives "No products to delete!" with no change; a rejected index changes nothing; otherwise exactly the selected position is removed from the list, the table and the dropdown; customers and sales are untouched |
| Grocery.DeleteProductPreservesValid | GroceryManagementUI.java:149-158 | deleting a product keeps the invariant |
| Grocery.AddCustomer | GroceryManagementUI.java:194-210 | "Fill all fields!" exactly when a trimmed field is empty; "Phone already registered!" exactly when the trimmed phone equals a registered one; otherwise exactly one customer is appended, with its name added to the dropdown; products and sales are untouched |
| Grocery.AppendCustomerKeepsValid | GroceryManagementUI.java:206-209 | appending a customer with an unregistered phone keeps phones distinct and the dropdown in step, even when the name repeats |
| Grocery.AddCustomerPreservesValid | GroceryManagementUI.java:194-210 | every `addCustomer` outcome keeps the invariant |
| Grocery.DeleteCustomer | GroceryManagementUI.java:212-221 | an empty list gives "No customers to delete!" with no change; a rejected index changes nothing; otherwise exactly the selected customer is removed from the list and the dropdown; products and sales are untouched |
| Grocery.DeleteCustomerPreservesValid | GroceryManagementUI.java:212-221 | deleting a customer keeps the invariant |
| Grocery.MakeSale | GroceryManagementUI.java:264-293 | a missing selection or an empty quantity, an unparsable quantity, an unknown product name and too little stock each hold exactly under their conditions, and each leaves the ledger unchanged; a recorded sale appends exactly one sale and refreshes the report; dropdowns and customers are never touched |
| Grocery.MakeSaleAt | GroceryManagementUI.java:274-289 | with the first exact match at i: stock below the quantity means no change; otherwise only product i loses exactly the quantity, ending at stock >= 0, and `Sale(name, qty, qty * price, buyer)` is appended |
| Grocery.MakeSaleOfSelectedItem | GroceryManagementUI.java:265-286 | in a valid ledger, selecting dropdown item k sells from product k exactly when its stock covers the quantity, and the report's revenue grows by `qty * price` |
| Grocery.MakeSalePreservesValid | GroceryManagementUI.java:264-293 | every `makeSale` outcome keeps the invariant |
| Session.ApplyPreservesValid | GroceryManagementUI.java:119-293 | whichever handler runs, the invariant is kept |
| Session.ApplySalesAppendOnly | GroceryManagementUI.java:283 | every handler except a recorded sale leaves the sales unchanged, and a recorded sale appends exactly one |
| Session.Run | GroceryManagementUI.java:9-11 | after any sequence of presses the invariant still holds and the earlier sales are a prefix of the later ones |
| Session.Reach | GroceryManagementUI.java:9-11 | every ledger reachable from the empty frame satisfies the invariant |
| Session.SalesGrowOncePerRecordedSale | GroceryManagementUI.java:281-286 | over any sequence of presses, the sales grow by exactly the number of recorded sales |
| Session.RevenueOfRun | GroceryManagementUI.java:306-313 | over any sequence of presses, the final revenue is the earlier revenue plus the totals of the new sales |
| Session.ReachableLedger | GroceryManagementUI.java:306-313 | in every reachable ledger, product names are distinct ignoring case, phones are distinct, and the dropdown lists exactly the product names; there is a report exactly when there is a sale, with one line per sale and the sum of all totals as revenue |
| Session.SecondRegistrationRejected | GroceryManagementUI.java:201-205 | once a phone is registered, a second registration with the same trimmed phone fails with no change, whatever the name |
| Session.AddTwiceMerges | GroceryManagementUI.java:130-143 | adding the same trimmed name twice to the empty frame, the second time with the merge confirmed, leaves one entry whose stock is the sum of both |
| Session.RiceRestockScenario | GroceryManagementUI.java:130-138 | adding "Rice" with 10 in stock, then "Rice" with 5 and the merge confirmed, leaves a single Rice entry with 15 |
| Session.OilThenAbebe | GroceryManagementUI.java:140-143 | adding "Oil", then registering "Abebe", leaves a catalogue holding only Oil and no sales |
| Session.OilAndAbebe | GroceryManagementUI.java:206-209 | the frame after those two steps has its views aligned, the single Oil product, and no sales |
| Session.SellThreeOil | GroceryManagementUI.java:277-279 | selling 3 when fewer are in stock is refused with no change |
| Session.SellTwoOil | GroceryManagementUI.java:281-286 | selling 2 Oil at 10000 lowers the stock by 2, records one sale of 20000, and reports it with a revenue of 20000 |
| Session.OilShortageScenario | GroceryManagementUI.java:277-279 | the Oil shortage scenario (2 in stock, selling 3) is refused with no change |
| Session.OilSaleScenario | GroceryManagementUI.java:281-286 | the Oil sale scenario (5 in stock, selling 2) leaves 3 in stock, one sale of 20000, and a report of 20000 |
| Session.OneSaleReport | GroceryManagementUI.java:309-313 | the report of a single sale is that sale's line, with its total as the revenue |

## Left out

- All Swing presentation: frame setup, styling, the gradient panels and panel building (GroceryManagementUI.java:28-117, 160-192, 223-262, 295-304) and `main`. None of it holds logic.
- Message and confirm dialogs. Each message becomes an `Outcome` tag, and the merge confirmation becomes a boolean input.
- `Double.parseDouble` and `Integer.parseInt`. The handlers receive a `NumberField` that is already parsed or marked malformed. Which texts those parsers accept, including the `int` range limit, is not modelled.
- Floating point. Prices and totals are integers, so the revenue sum is exact. The text formatting of the report (`toString` of a double, the "birr" suffix, line breaks) is not modelled. A report line keeps buyer, quantity, product and total.
- Java `int` overflow in `p.stock += stock` and `p.stock -= qty`. Stock is an unbounded integer. In Java a very negative quantity can wrap the sold product's stock negative: stock 0 and quantity -2147483648 pass the stock test, and `p.stock -= qty` wraps back to -2147483648.
- Grocery.MakeSaleAt: its promise that the sold product's stock is at least 0 after the sale holds for unbounded integers only; the 32-bit wrap-around described above is not modelled.
- Unicode case mapping in `equalsIgnoreCase`. The model folds only the ASCII letters A-Z and a-z.
- The customer table and the sales table. They mirror the customer and sale lists row by row; the product table is modelled because its stock cells are updated in place.
- Direct edits of table cells. The product table sits on a `DefaultTableModel` (GroceryManagementUI.java:111-112), whose cells the user can edit without any handler running. Such edits are not an input of the model, so the mirroring in `Valid` covers only the changes the handlers make.
- How the dropdowns choose their selection. The selected item and the selected index are inputs. The automatic reselection after an item is removed is not modelled. `JComboBox.getSelectedIndex()` reports the first item equal to the selected one. So when two customers share a name, which `addCustomer` allows, `deleteCustomer` removes the first customer with that name, which may not be the one the user highlighted. The model takes the index as a free input, so it covers that case but does not single it out.

/**
 The in-memory ledger of the grocery frame and its five state-changing
 handlers. Each handler reads its inputs, then either leaves the ledger
 exactly as it was (reporting why through an `Outcome`) or makes one change.

 Inputs arrive as the handlers see them after reading the widgets: name and
 phone fields as raw text (the handlers trim them), numeric fields already
 through the Java parser, the merge confirmation as a boolean, dropdown
 selections as an index or a selected item.
 */
module Grocery {
  import opened Text
  import opened Records
  import opened SalesReport

  /**
   The frame's state: the three lists, the product table rows, the items of
   the two dropdowns, and the report (None until the first sale refreshes it).
   */
  datatype Ledger = Ledger(
    products: seq<Product>,
    productTable: seq<Product>,
    productDropdown: seq<string>,
    customers: seq<Customer>,
    customerDropdown: seq<string>,
    sales: seq<Sale>,
    report: Option<Report>)

  /** The ledger when the frame opens. */
  const Initial := Ledger([], [], [], [], [], [], None)

  /** A numeric text field: empty after trimming, rejected by the parser, or parsed. */
  datatype NumberField = Blank | Malformed | Number(value: int)

  /** What a handler did; every tag but the six changes (see `IsChange`) leaves the ledger untouched. */
  datatype Outcome =
    | ProductAdded | StockMerged | ProductDeleted | CustomerAdded | CustomerDeleted | SaleRecorded
    | FillAllFields          // "Fill all fields!"
    | InvalidNumber          // "Invalid number format!"
    | MergeDeclined          // the user answered No to "Product exists. Add stock?"
    | NothingToDelete        // "No products to delete!" / "No customers to delete!"
    | SelectionOutOfRange    // the list rejects the index with an exception before changing
    | PhoneRegistered        // "Phone already registered!"
    | SelectionMissing       // "Select product, customer, and enter quantity!"
    | InvalidQuantity        // "Invalid quantity!"
    | ProductNotFound        // no product has the selected name: the handler returns silently
    | NotEnoughStock         // "Not enough stock!"

  predicate IsChange(o: Outcome) {
    o.ProductAdded? || o.StockMerged? || o.ProductDeleted? || o.CustomerAdded?
    || o.CustomerDeleted? || o.SaleRecorded?
  }

  datatype Step = Step(ledger: Ledger, outcome: Outcome)

  /** The table and the dropdowns hold one row or item per list element. */
  predicate Aligned(l: Ledger) {
    && |l.productTable| == |l.products|
    && |l.productDropdown| == |l.products|
    && |l.customerDropdown| == |l.customers|
  }

  /** The views show exactly the lists, in list order. */
  predicate Mirrored(l: Ledger) {
    && l.productTable == l.products
    && l.productDropdown == ProductNames(l.products)
    && l.customerDropdown == CustomerNames(l.customers)
  }

  /** Every stored name and phone is non-empty and already trimmed. */
  predicate FieldsTrimmed(l: Ledger) {
    && (forall i :: 0 <= i < |l.products| ==> l.products[i].name != [] && IsTrimmed(l.products[i].name))
    && (forall i :: 0 <= i < |l.customers| ==> l.customers[i].name != [] && IsTrimmed(l.customers[i].name))
    && (forall i :: 0 <= i < |l.customers| ==> l.customers[i].phone != [] && IsTrimmed(l.customers[i].phone))
  }

  /** The report area shows the report of the whole sale history once there is one. */
  predicate ReportCurrent(l: Ledger) {
    l.report == if l.sales == [] then None else Some(ReportOf(l.sales))
  }

  /** The invariant every handler keeps. */
  predicate Valid(l: Ledger) {
    && NamesDistinctIgnoringCase(l.products)
    && PhonesDistinct(l.customers)
    && Mirrored(l)
    && FieldsTrimmed(l)
    && ReportCurrent(l)
  }

  lemma InitialIsValid()
    ensures Valid(Initial)
  {
  }

  /** `after` is `before` without its element at position `i`, the rest in order. */
  predicate RemovedAt<T(==)>(before: seq<T>, after: seq<T>, i: int) {
    && 0 <= i < |before|
    && |after| == |before| - 1
    && (forall k :: 0 <= k < i ==> after[k] == before[k])
    && (forall k :: i <= k < |after| ==> after[k] == before[k + 1])
  }

  /** `ArrayList.remove(int)` and its table and dropdown counterparts. */
  function RemoveAt<T>(s: seq<T>, i: nat): (r: seq<T>)
    requires i < |s|
    ensures RemovedAt(s, r, i)
  {
    s[..i] + s[i + 1..]
  }

  // ---------------------------------------------------------------- addProduct

  /**
   Adds `amount` to the stock of product `i` and refreshes the stock cell of
   its table row, as `p.stock += stock` and `p.stock -= qty` do with their
   `setValueAt` calls.
   */
  function Restock(l: Ledger, i: nat, amount: int): (l': Ledger)
    requires Aligned(l) && i < |l.products|
    ensures Aligned(l')
    ensures |l'.products| == |l.products|
    ensures l'.products[i] == Product(l.products[i].name, l.products[i].price, l.products[i].stock + amount)
    ensures forall j :: 0 <= j < |l.products| && j != i ==> l'.products[j] == l.products[j]
    ensures l'.productTable[i] == l.productTable[i].(stock := l'.products[i].stock)
    ensures forall j :: 0 <= j < |l.productTable| && j != i ==> l'.productTable[j] == l.productTable[j]
    ensures l'.productDropdown == l.productDropdown
    ensures l'.customers == l.customers && l'.customerDropdown == l.customerDropdown
    ensures l'.sales == l.sales && l'.report == l.report
  {
    var p := l.products[i];
    var changed := p.(stock := p.stock + amount);
    l.(products := l.products[i := changed],
       productTable := l.productTable[i := l.productTable[i].(stock := changed.stock)])
  }

  /** Appends a product to the list, its row to the table and its name to the dropdown. */
  function AppendProduct(l: Ledger, p: Product): (l': Ledger)
    requires Aligned(l)
    ensures Aligned(l')
    ensures l'.products == l.products + [p]
    ensures l'.productTable == l.productTable + [p]
    ensures l'.productDropdown == l.productDropdown + [p.name]
    ensures l'.customers == l.customers && l'.customerDropdown == l.customerDropdown
    ensures l'.sales == l.sales && l'.report == l.report
  {
    l.(products := l.products + [p],
       productTable := l.productTable + [p],
       productDropdown := l.productDropdown + [p.name])
  }

  /**
   `addProduct`: trims the name, insists all three fields are filled and both
   numbers parse, then either offers to add the stock to the first product
   whose name matches ignoring case, or appends a new product. Negative
   prices and stocks are accepted as parsed.
   */
  function AddProduct(l: Ledger, nameText: string, price: NumberField, stock: NumberField, confirmMerge: bool): (r: Step)
    requires Aligned(l)
    ensures Aligned(r.ledger)
    ensures r.outcome == FillAllFields <==> Trim(nameText) == [] || price.Blank? || stock.Blank?
    ensures r.outcome == InvalidNumber <==>
              Trim(nameText) != [] && !price.Blank? && !stock.Blank? && (price.Malformed? || stock.Malformed?)
    ensures r.outcome.FillAllFields? || r.outcome.InvalidNumber? || r.outcome.MergeDeclined? || r.outcome.ProductAdded? || r.outcome.StockMerged?
    ensures !IsChange(r.outcome) ==> r.ledger == l
    ensures r.outcome == MergeDeclined ==> !confirmMerge
    ensures r.ledger.customers == l.customers && r.ledger.customerDropdown == l.customerDropdown
    ensures r.ledger.sales == l.sales && r.ledger.report == l.report
  {
    var name := Trim(nameText);
    if name == [] || price.Blank? || stock.Blank? then
      Step(l, FillAllFields)
    else if price.Malformed? || stock.Malformed? then
      Step(l, InvalidNumber)
    else
      AddParsed(l, name, price.value, stock.value, confirmMerge)
  }

  /**
   The part of `addProduct` after its checks: the first product matching the
   trimmed name ignoring case receives the stock when the merge is confirmed,
   and with no match a new product is appended.
   */
  function AddParsed(l: Ledger, name: string, price: int, stock: int, confirmMerge: bool): (r: Step)
    requires Aligned(l)
    ensures Aligned(r.ledger)
    ensures r.outcome.MergeDeclined? || r.outcome.ProductAdded? || r.outcome.StockMerged?
    ensures r.outcome == MergeDeclined ==> r.ledger == l && !confirmMerge
    ensures r.ledger.customers == l.customers && r.ledger.customerDropdown == l.customerDropdown
    ensures r.ledger.sales == l.sales && r.ledger.report == l.report
  {
    match FindIgnoringCase(l.products, name)
    case Some(i) =>
      if confirmMerge then Step(Restock(l, i, stock), StockMerged) else Step(l, MergeDeclined)
    case None =>
      Step(AppendProduct(l, Product(name, price, stock)), ProductAdded)
  }

  /**
   With every field filled and both numbers parsed, `addProduct` goes on with
   the trimmed name and the parsed values.
   */
  lemma AddProductProceeds(l: Ledger, nameText: string, price: NumberField, stock: NumberField, confirmMerge: bool)
    requires Aligned(l)
    requires Trim(nameText) != [] && price.Number? && stock.Number?
    ensures AddProduct(l, nameText, price, stock, confirmMerge) == AddParsed(l, Trim(nameText), price.value, stock.value, confirmMerge)
  {
  }

  /** With no product matching ignoring case, exactly one product is appended to the list and its views. */
  lemma AddParsedAppends(l: Ledger, name: string, price: int, stock: int, confirmMerge: bool)
    requires Aligned(l)
    requires forall i :: 0 <= i < |l.products| ==> !EqualsIgnoreCase(l.products[i].name, name)
    ensures var r := AddParsed(l, name, price, stock, confirmMerge);
            var p := Product(name, price, stock);
            && r.outcome == ProductAdded
            && r.ledger.products == l.products + [p]
            && r.ledger.productTable == l.productTable + [p]
            && r.ledger.productDropdown == l.productDropdown + [name]
  {
    var found := FindIgnoringCase(l.products, name);
    assert found.None?;
  }

  /**
   With a product at `i` matching ignoring case and none before it, a
   confirmed merge appends nothing and adds the entered stock to product `i`
   alone, keeping its name and price.
   */
  lemma AddParsedMerges(l: Ledger, name: string, price: int, stock: int, i: nat)
    requires Aligned(l)
    requires i < |l.products| && EqualsIgnoreCase(l.products[i].name, name)
    requires forall j :: 0 <= j < i ==> !EqualsIgnoreCase(l.products[j].name, name)
    ensures var r := AddParsed(l, name, price, stock, true);
            && r.outcome == StockMerged
            && |r.ledger.products| == |l.products|
            && r.ledger.products[i].name == l.products[i].name
            && r.ledger.products[i].price == l.products[i].price
            && r.ledger.products[i].stock == l.products[i].stock + stock
            && r.ledger.productTable[i] == l.productTable[i].(stock := r.ledger.products[i].stock)
            && (forall j :: 0 <= j < |l.products| && j != i ==> r.ledger.products[j] == l.products[j])
            && (forall j :: 0 <= j < |l.products| && j != i ==> r.ledger.productTable[j] == l.productTable[j])
            && r.ledger.productDropdown == l.productDropdown
  {
    FindIgnoringCaseFirst(l.products, name, i);
  }

  /** With a product matching ignoring case, declining the merge changes nothing. */
  lemma AddParsedMergeDeclined(l: Ledger, name: string, price: int, stock: int, i: nat)
    requires Aligned(l)
    requires i < |l.products| && EqualsIgnoreCase(l.products[i].name, name)
    ensures AddParsed(l, name, price, stock, false) == Step(l, MergeDeclined)
  {
    var found := FindIgnoringCase(l.products, name);
    assert found.Some?;
  }

  /** Appending a product whose trimmed name matches none ignoring case keeps the invariant. */
  lemma AppendProductKeepsValid(l: Ledger, p: Product)
    requires Valid(l)
    requires p.name != [] && IsTrimmed(p.name)
    requires forall i :: 0 <= i < |l.products| ==> !EqualsIgnoreCase(l.products[i].name, p.name)
    ensures Valid(AppendProduct(l, p))
  {
    var l' := AppendProduct(l, p);
    var ps := l'.products;
    assert NamesDistinctIgnoringCase(ps) by {
      forall i, j | 0 <= i < j < |ps|
        ensures !EqualsIgnoreCase(ps[i].name, ps[j].name)
      {
        assert ps[i] == l.products[i];
        if j < |l.products| {
          assert ps[j] == l.products[j];
        }
      }
    }
    assert FieldsTrimmed(l') by {
      assert forall i :: 0 <= i < |l.products| ==> ps[i] == l.products[i];
      assert ps[|l.products|] == p;
    }
    assert l'.productDropdown == ProductNames(ps);
  }

  /** Changing the stock of one product keeps the invariant. */
  lemma RestockKeepsValid(l: Ledger, i: nat, amount: int)
    requires Valid(l)
    requires i < |l.products|
    ensures Valid(Restock(l, i, amount))
  {
    var l' := Restock(l, i, amount);
    var ps := l'.products;
    assert forall k :: 0 <= k < |ps| ==> ps[k].name == l.products[k].name;
    assert l'.productDropdown == ProductNames(ps);
    assert l'.productTable == ps;
  }

  /** Whatever the lookup finds, the add-or-merge step keeps the invariant for a trimmed, non-empty name. */
  lemma AddParsedPreservesValid(l: Ledger, name: string, price: int, stock: int, confirmMerge: bool)
    requires Valid(l)
    requires name != [] && IsTrimmed(name)
    ensures Valid(AddParsed(l, name, price, stock, confirmMerge).ledger)
  {
    match FindIgnoringCase(l.products, name)
    case None =>
      AppendProductKeepsValid(l, Product(name, price, stock));
    case Some(i) =>
      if confirmMerge {
        RestockKeepsValid(l, i, stock);
      }
  }

  lemma AddProductPreservesValid(l: Ledger, nameText: string, price: NumberField, stock: NumberField, confirmMerge: bool)
    requires Valid(l)
    ensures Valid(AddProduct(l, nameText, price, stock, confirmMerge).ledger)
  {
    var name := Trim(nameText);
    if name != [] && price.Number? && stock.Number? {
      AddProductProceeds(l, nameText, price, stock, confirmMerge);
      AddParsedPreservesValid(l, name, price.value, stock.value, confirmMerge);
    }
  }

  // ------------------------------------------------------------- deleteProduct

  /**
   `deleteProduct`: refuses on an empty catalogue; otherwise removes the
   selected position from the list, the table and the dropdown. An index
   the list rejects (the dropdown reports -1 when nothing is selected)
   raises before anything changes.
   */
  function DeleteProduct(l: Ledger, index: int): (r: Step)
    requires Aligned(l)
    ensures l.products == [] ==> r == Step(l, NothingToDelete)
    ensures l.products != [] && !(0 <= index < |l.products|) ==> r == Step(l, SelectionOutOfRange)
    ensures 0 <= index < |l.products| ==>
              && r.outcome == ProductDeleted
              && RemovedAt(l.products, r.ledger.products, index)
              && RemovedAt(l.productTable, r.ledger.productTable, index)
              && RemovedAt(l.productDropdown, r.ledger.productDropdown, index)
    ensures r.ledger.customers == l.customers && r.ledger.customerDropdown == l.customerDropdown
    ensures r.ledger.sales == l.sales && r.ledger.report == l.report
  {
    if l.products == [] then
      Step(l, NothingToDelete)
    else if index < 0 || index >= |l.products| then
      Step(l, SelectionOutOfRange)
    else
      Step(l.(products := RemoveAt(l.products, index),
              productTable := RemoveAt(l.productTable, index),
              productDropdown := RemoveAt(l.productDropdown, index)), ProductDeleted)
  }

  lemma DeleteProductPreservesValid(l: Ledger, index: int)
    requires Valid(l)
    ensures Valid(DeleteProduct(l, index).ledger)
  {
    var r := DeleteProduct(l, index);
    if r.outcome == ProductDeleted {
      var ps := r.ledger.products;
      forall i, j | 0 <= i < j < |ps|
        ensures !EqualsIgnoreCase(ps[i].name, ps[j].name)
      {
        var i' := if i < index then i else i + 1;
        var j' := if j < index then j else j + 1;
        assert ps[i] == l.products[i'] && ps[j] == l.products[j'];
      }
      assert r.ledger.productDropdown == ProductNames(ps);
    }
  }

  // --------------------------------------------------------------- addCustomer

  /**
   `addCustomer`: trims both fields, insists both are filled, rejects a
   phone exactly equal to a registered one, and otherwise appends the
   customer. Names may repeat.
   */
  function AddCustomer(l: Ledger, nameText: string, phoneText: string): (r: Step)
    ensures r.outcome == FillAllFields <==> Trim(nameText) == [] || Trim(phoneText) == []
    ensures r.outcome == PhoneRegistered <==>
              && Trim(nameText) != [] && Trim(phoneText) != []
              && exists i :: 0 <= i < |l.customers| && l.customers[i].phone == Trim(phoneText)
    ensures r.outcome.FillAllFields? || r.outcome.PhoneRegistered? || r.outcome.CustomerAdded?
    ensures r.outcome != CustomerAdded ==> r.ledger == l
    ensures r.outcome == CustomerAdded ==>
              && r.ledger.customers == l.customers + [Customer(Trim(nameText), Trim(phoneText))]
              && r.ledger.customerDropdown == l.customerDropdown + [Trim(nameText)]
    ensures r.ledger.products == l.products && r.ledger.productTable == l.productTable
    ensures r.ledger.productDropdown == l.productDropdown
    ensures r.ledger.sales == l.sales && r.ledger.report == l.report
  {
    var name := Trim(nameText);
    var phone := Trim(phoneText);
    if name == [] || phone == [] then
      Step(l, FillAllFields)
    else if HasPhone(l.customers, phone) then
      Step(l, PhoneRegistered)
    else
      Step(l.(customers := l.customers + [Customer(name, phone)],
              customerDropdown := l.customerDropdown + [name]), CustomerAdded)
  }

  /** Appending a customer with a trimmed name and a trimmed, unregistered phone keeps the invariant. */
  lemma AppendCustomerKeepsValid(l: Ledger, l': Ledger, c: Customer)
    requires Valid(l)
    requires c.name != [] && IsTrimmed(c.name) && c.phone != [] && IsTrimmed(c.phone)
    requires forall i :: 0 <= i < |l.customers| ==> l.customers[i].phone != c.phone
    requires l' == l.(customers := l.customers + [c], customerDropdown := l.customerDropdown + [c.name])
    ensures Valid(l')
  {
    var cs := l'.customers;
    assert PhonesDistinct(cs) by {
      forall i, j | 0 <= i < j < |cs|
        ensures cs[i].phone != cs[j].phone
      {
        assert cs[i] == l.customers[i];
        if j < |l.customers| {
          assert cs[j] == l.customers[j];
        }
      }
    }
    assert FieldsTrimmed(l') by {
      assert forall i :: 0 <= i < |l.customers| ==> cs[i] == l.customers[i];
      assert cs[|l.customers|] == c;
    }
    assert l'.customerDropdown == CustomerNames(cs);
  }

  lemma AddCustomerPreservesValid(l: Ledger, nameText: string, phoneText: string)
    requires Valid(l)
    ensures Valid(AddCustomer(l, nameText, phoneText).ledger)
  {
    var r := AddCustomer(l, nameText, phoneText);
    if r.outcome == CustomerAdded {
      AppendCustomerKeepsValid(l, r.ledger, Customer(Trim(nameText), Trim(phoneText)));
    }
  }

  // ------------------------------------------------------------ deleteCustomer

  /** `deleteCustomer`: the customer counterpart of `deleteProduct`. */
  function DeleteCustomer(l: Ledger, index: int): (r: Step)
    requires Aligned(l)
    ensures l.customers == [] ==> r == Step(l, NothingToDelete)
    ensures l.customers != [] && !(0 <= index < |l.customers|) ==> r == Step(l, SelectionOutOfRange)
    ensures 0 <= index < |l.customers| ==>
              && r.outcome == CustomerDeleted
              && RemovedAt(l.customers, r.ledger.customers, index)
              && RemovedAt(l.customerDropdown, r.ledger.customerDropdown, index)
    ensures r.ledger.products == l.products && r.ledger.productTable == l.productTable
    ensures r.ledger.productDropdown == l.productDropdown
    ensures r.ledger.sales == l.sales && r.ledger.report == l.report
  {
    if l.customers == [] then
      Step(l, NothingToDelete)
    else if index < 0 || index >= |l.customers| then
      Step(l, SelectionOutOfRange)
    else
      Step(l.(customers := RemoveAt(l.customers, index),
              customerDropdown := RemoveAt(l.customerDropdown, index)), CustomerDeleted)
  }

  lemma DeleteCustomerPreservesValid(l: Ledger, index: int)
    requires Valid(l)
    ensures Valid(DeleteCustomer(l, index).ledger)
  {
    var r := DeleteCustomer(l, index);
    if r.outcome == CustomerDeleted {
      var cs := r.ledger.customers;
      forall i, j | 0 <= i < j < |cs|
        ensures cs[i].phone != cs[j].phone
      {
        var i' := if i < index then i else i + 1;
        var j' := if j < index then j else j + 1;
        assert cs[i] == l.customers[i'] && cs[j] == l.customers[j'];
      }
      assert r.ledger.customerDropdown == CustomerNames(cs);
    }
  }

  // ------------------------------------------------------------------ makeSale

  /**
   `makeSale`: needs a selected product, a selected buyer and a filled
   quantity that parses; finds the first product with exactly the selected
   name, refuses when its stock is below the quantity, and otherwise takes
   the quantity off the stock, records the sale at quantity times unit price
   and refreshes the report. No quantity is refused for being zero
   or negative: only a stock below the quantity refuses the sale.
   */
  function MakeSale(l: Ledger, productSel: Option<string>, buyerSel: Option<string>, qty: NumberField): (r: Step)
    requires Aligned(l)
    ensures r.outcome == SelectionMissing <==> productSel.None? || buyerSel.None? || qty.Blank?
    ensures r.outcome == InvalidQuantity <==> productSel.Some? && buyerSel.Some? && qty.Malformed?
    ensures r.outcome == ProductNotFound <==>
              && productSel.Some? && buyerSel.Some? && qty.Number?
              && forall j :: 0 <= j < |l.products| ==> l.products[j].name != productSel.value
    ensures r.outcome == NotEnoughStock <==>
              && productSel.Some? && buyerSel.Some? && qty.Number?
              && FindExact(l.products, productSel.value).Some?
              && l.products[FindExact(l.products, productSel.value).value].stock < qty.value
    ensures r.outcome.SelectionMissing? || r.outcome.InvalidQuantity? || r.outcome.ProductNotFound? || r.outcome.NotEnoughStock? || r.outcome.SaleRecorded?
    ensures r.outcome != SaleRecorded ==> r.ledger == l
    ensures r.outcome == SaleRecorded ==>
              && |r.ledger.sales| == |l.sales| + 1
              && r.ledger.sales[..|l.sales|] == l.sales
              && r.ledger.report == Some(ReportOf(r.ledger.sales))
    ensures r.ledger.customers == l.customers && r.ledger.customerDropdown == l.customerDropdown
    ensures r.ledger.productDropdown == l.productDropdown
  {
    if productSel.None? || buyerSel.None? || qty.Blank? then
      Step(l, SelectionMissing)
    else if qty.Malformed? then
      Step(l, InvalidQuantity)
    else
      match FindExact(l.products, productSel.value)
      case None => Step(l, ProductNotFound)
      case Some(i) =>
        var p := l.products[i];
        if p.stock < qty.value then
          Step(l, NotEnoughStock)
        else
          var sales := l.sales + [Sale(p.name, qty.value, qty.value * p.price, buyerSel.value)];
          Step(Restock(l, i, -qty.value).(sales := sales, report := Some(ReportOf(sales))), SaleRecorded)
  }

  /**
   With the first exact-name match at `i`: below the quantity the sale is
   refused and nothing changes; otherwise product `i` alone loses exactly
   `qty` units, ending with non-negative stock, and exactly one sale naming
   that product and buyer, priced at `qty` times the unit price, is appended.
   */
  lemma MakeSaleAt(l: Ledger, productName: string, buyer: string, qty: int, i: nat)
    requires Aligned(l)
    requires i < |l.products| && l.products[i].name == productName
    requires forall j :: 0 <= j < i ==> l.products[j].name != productName
    ensures var r := MakeSale(l, Some(productName), Some(buyer), Number(qty));
            var p := l.products[i];
            && (p.stock < qty ==> r == Step(l, NotEnoughStock))
            && (p.stock >= qty ==>
                  && r.outcome == SaleRecorded
                  && |r.ledger.products| == |l.products|
                  && r.ledger.products[i] == Product(p.name, p.price, p.stock - qty)
                  && r.ledger.products[i].stock >= 0
                  && r.ledger.productTable[i] == l.productTable[i].(stock := r.ledger.products[i].stock)
                  && (forall j :: 0 <= j < |l.products| && j != i ==> r.ledger.products[j] == l.products[j])
                  && (forall j :: 0 <= j < |l.products| && j != i ==> r.ledger.productTable[j] == l.productTable[j])
                  && r.ledger.sales == l.sales + [Sale(productName, qty, qty * p.price, buyer)])
  {
    FindExactFirst(l.products, productName, i);
  }

  /**
   In a valid ledger, selecting the dropdown item at position `k` sells from
   product `k`, and a recorded sale raises the report's revenue by exactly
   its total.
   */
  lemma MakeSaleOfSelectedItem(l: Ledger, k: nat, buyer: string, qty: int)
    requires Valid(l)
    requires k < |l.productDropdown|
    ensures var r := MakeSale(l, Some(l.productDropdown[k]), Some(buyer), Number(qty));
            var p := l.products[k];
            && (r.outcome == SaleRecorded <==> p.stock >= qty)
            && (r.outcome == SaleRecorded ==>
                  && r.ledger.products[k].stock == p.stock - qty
                  && r.ledger.report.Some?
                  && r.ledger.report.value.revenue == Revenue(l.sales) + qty * p.price)
  {
    assert l.productDropdown[k] == l.products[k].name;
    FindExactOfDistinctName(l.products, k);
    var r := MakeSale(l, Some(l.productDropdown[k]), Some(buyer), Number(qty));
    if r.outcome == SaleRecorded {
      RevenueSnoc(l.sales, Sale(l.products[k].name, qty, qty * l.products[k].price, buyer));
    }
  }

  lemma MakeSalePreservesValid(l: Ledger, productSel: Option<string>, buyerSel: Option<string>, qty: NumberField)
    requires Valid(l)
    ensures Valid(MakeSale(l, productSel, buyerSel, qty).ledger)
  {
    var r := MakeSale(l, productSel, buyerSel, qty);
    if r.outcome == SaleRecorded {
      var i := FindExact(l.products, productSel.value).value;
      var ps := r.ledger.products;
      forall j, k | 0 <= j < k < |ps|
        ensures !EqualsIgnoreCase(ps[j].name, ps[k].name)
      {
        assert ps[j].name == l.products[j].name && ps[k].name == l.products[k].name;
      }
      assert r.ledger.productDropdown == ProductNames(ps);
    }
  }
}

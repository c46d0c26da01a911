/**
 Sessions: any sequence of button presses applied to the ledger in order,
 one handler at a time, starting from the empty frame. Facts proved here
 hold for every interleaving of the five handlers.
 */
module Session {
  import opened Text
  import opened Records
  import opened SalesReport
  import opened Grocery

  /** One button press together with what the widgets held at that moment. */
  datatype Command =
    | AddProductCmd(name: string, price: NumberField, stock: NumberField, confirmMerge: bool)
    | DeleteProductCmd(index: int)
    | AddCustomerCmd(name: string, phone: string)
    | DeleteCustomerCmd(index: int)
    | SellCmd(product: Option<string>, buyer: Option<string>, qty: NumberField)

  function Apply(l: Ledger, c: Command): Step
    requires Aligned(l)
  {
    match c
    case AddProductCmd(name, price, stock, confirm) => AddProduct(l, name, price, stock, confirm)
    case DeleteProductCmd(index) => DeleteProduct(l, index)
    case AddCustomerCmd(name, phone) => AddCustomer(l, name, phone)
    case DeleteCustomerCmd(index) => DeleteCustomer(l, index)
    case SellCmd(product, buyer, qty) => MakeSale(l, product, buyer, qty)
  }

  /** Every handler keeps the ledger invariant. */
  lemma ApplyPreservesValid(l: Ledger, c: Command)
    requires Valid(l)
    ensures Valid(Apply(l, c).ledger)
  {
    match c
    case AddProductCmd(name, price, stock, confirm) => AddProductPreservesValid(l, name, price, stock, confirm);
    case DeleteProductCmd(index) => DeleteProductPreservesValid(l, index);
    case AddCustomerCmd(name, phone) => AddCustomerPreservesValid(l, name, phone);
    case DeleteCustomerCmd(index) => DeleteCustomerPreservesValid(l, index);
    case SellCmd(product, buyer, qty) => MakeSalePreservesValid(l, product, buyer, qty);
  }

  /** Only a recorded sale touches the sales list, and it appends exactly one record. */
  lemma ApplySalesAppendOnly(l: Ledger, c: Command)
    requires Aligned(l)
    ensures Apply(l, c).outcome != SaleRecorded ==> Apply(l, c).ledger.sales == l.sales
    ensures Apply(l, c).outcome == SaleRecorded ==>
              && |Apply(l, c).ledger.sales| == |l.sales| + 1
              && l.sales <= Apply(l, c).ledger.sales
  {
  }

  /** The ledger after pressing the buttons in order, from a valid ledger. */
  function Run(l: Ledger, cmds: seq<Command>): (r: Ledger)
    requires Valid(l)
    ensures Valid(r)
    ensures l.sales <= r.sales
    decreases |cmds|
  {
    if cmds == [] then l
    else
      ApplyPreservesValid(l, cmds[0]);
      ApplySalesAppendOnly(l, cmds[0]);
      Run(Apply(l, cmds[0]).ledger, cmds[1..])
  }

  /** The ledger after pressing the buttons in order, from the empty frame. */
  function Reach(cmds: seq<Command>): (r: Ledger)
    ensures Valid(r)
  {
    InitialIsValid();
    Run(Initial, cmds)
  }

  /** The outcome of every press, in order. */
  function Outcomes(l: Ledger, cmds: seq<Command>): seq<Outcome>
    requires Valid(l)
    decreases |cmds|
  {
    if cmds == [] then []
    else
      ApplyPreservesValid(l, cmds[0]);
      [Apply(l, cmds[0]).outcome] + Outcomes(Apply(l, cmds[0]).ledger, cmds[1..])
  }

  function CountRecorded(os: seq<Outcome>): nat {
    if os == [] then 0 else (if os[0] == SaleRecorded then 1 else 0) + CountRecorded(os[1..])
  }

  /** Exactly one sale record is created per successful sale, and none otherwise. */
  lemma {:induction false} SalesGrowOncePerRecordedSale(l: Ledger, cmds: seq<Command>)
    requires Valid(l)
    ensures |Run(l, cmds).sales| == |l.sales| + CountRecorded(Outcomes(l, cmds))
    decreases |cmds|
  {
    if cmds != [] {
      ApplyPreservesValid(l, cmds[0]);
      ApplySalesAppendOnly(l, cmds[0]);
      SalesGrowOncePerRecordedSale(Apply(l, cmds[0]).ledger, cmds[1..]);
    }
  }

  /**
   Whatever the presses, the revenue of the final history is the revenue
   before them plus the totals of the sales they added, in recording order.
   */
  lemma RevenueOfRun(l: Ledger, cmds: seq<Command>)
    requires Valid(l)
    ensures var r := Run(l, cmds);
            Revenue(r.sales) == Revenue(l.sales) + Revenue(r.sales[|l.sales|..])
  {
    RevenueOfExtension(l.sales, Run(l, cmds).sales);
  }

  /**
   From the empty frame, every reachable ledger has case-insensitively
   distinct product names, distinct phones, a product dropdown listing
   exactly the product names, and, once a sale exists, a report with one
   line per sale whose revenue is the sum of all sale totals.
   */
  lemma ReachableLedger(cmds: seq<Command>)
    ensures var l := Reach(cmds);
            && NamesDistinctIgnoringCase(l.products)
            && PhonesDistinct(l.customers)
            && l.productDropdown == ProductNames(l.products)
            && (l.sales == [] <==> l.report.None?)
            && (l.report.Some? ==>
                  && |l.report.value.lines| == |l.sales|
                  && (forall i :: 0 <= i < |l.sales| ==> l.report.value.lines[i].total == l.sales[i].total)
                  && l.report.value.revenue == Revenue(l.sales))
  {
  }

  /**
   Registering a phone makes any later registration with the same trimmed
   phone fail with no change, whatever name comes with it.
   */
  lemma SecondRegistrationRejected(l: Ledger, name1: string, phone1: string, name2: string, phone2: string)
    requires AddCustomer(l, name1, phone1).outcome == CustomerAdded
    requires Trim(name2) != [] && Trim(phone2) == Trim(phone1)
    ensures var l1 := AddCustomer(l, name1, phone1).ledger;
            AddCustomer(l1, name2, phone2) == Step(l1, PhoneRegistered)
  {
    var l1 := AddCustomer(l, name1, phone1).ledger;
    assert l1.customers[|l.customers|].phone == Trim(phone2);
  }

  /**
   Adding the same trimmed name twice to the empty frame, the second time
   with the merge confirmed, leaves one entry holding both stocks.
   */
  lemma AddTwiceMerges(name: string, price: int, first: int, second: int)
    requires name != [] && IsTrimmed(name)
    ensures var l1 := AddProduct(Initial, name, Number(price), Number(first), false).ledger;
            var r := AddProduct(l1, name, Number(price), Number(second), true);
            r.outcome == StockMerged && r.ledger.products == [Product(name, price, first + second)]
  {
    TrimOfTrimmed(name);
    AddProductProceeds(Initial, name, Number(price), Number(first), false);
    AddParsedAppends(Initial, name, price, first, false);
    var l1 := AddProduct(Initial, name, Number(price), Number(first), false).ledger;
    assert l1.products == [Product(name, price, first)];
    EqualsIgnoreCaseReflexive(name);
    AddProductProceeds(l1, name, Number(price), Number(second), true);
    AddParsedMerges(l1, name, price, second, 0);
  }

  /** Adding "Rice" twice with the merge confirmed leaves one entry holding both stocks. */
  lemma RiceRestockScenario()
    ensures var l1 := AddProduct(Initial, "Rice", Number(5000), Number(10), false).ledger;
            var r := AddProduct(l1, "Rice", Number(5000), Number(5), true);
            r.outcome == StockMerged && r.ledger.products == [Product("Rice", 5000, 15)]
  {
    AddTwiceMerges("Rice", 5000, 10, 5);
  }

  /** Adding "Oil" at the given stock to the empty frame and then registering "Abebe" with phone "0911". */
  lemma OilThenAbebe(stock: int)
    ensures var l1 := AddProduct(Initial, "Oil", Number(10000), Number(stock), false).ledger;
            var l2 := AddCustomer(l1, "Abebe", "0911").ledger;
            && Aligned(l2)
            && l2.products == [Product("Oil", 10000, stock)]
            && l2.sales == [] && l2.report == None
  {
    TrimOfTrimmed("Oil");
    AddProductProceeds(Initial, "Oil", Number(10000), Number(stock), false);
    AddParsedAppends(Initial, "Oil", 10000, stock, false);
    var l1 := AddProduct(Initial, "Oil", Number(10000), Number(stock), false).ledger;
    assert l1.products == [Product("Oil", 10000, stock)];
    assert |l1.productDropdown| == 1 && |l1.productTable| == 1;
    assert l1.customers == [] && l1.customerDropdown == [];
    var r := AddCustomer(l1, "Abebe", "0911");
    assert r.ledger.products == l1.products;
    assert r.ledger.productDropdown == l1.productDropdown;
    assert r.ledger.productTable == l1.productTable;
    assert |r.ledger.customers| == |r.ledger.customerDropdown|;
  }

  function OilAndAbebe(stock: int): (l: Ledger)
    ensures Aligned(l)
    ensures l.products == [Product("Oil", 10000, stock)]
    ensures l.sales == []
  {
    OilThenAbebe(stock);
    var l1 := AddProduct(Initial, "Oil", Number(10000), Number(stock), false).ledger;
    AddCustomer(l1, "Abebe", "0911").ledger
  }

  /** From a catalogue holding only "Oil" at 10000, selling 3 to "Abebe" out of fewer is refused unchanged. */
  lemma SellThreeOil(l: Ledger, stock: int)
    requires Aligned(l) && l.products == [Product("Oil", 10000, stock)]
    requires stock < 3
    ensures var r := MakeSale(l, Some("Oil"), Some("Abebe"), Number(3));
            r == Step(l, NotEnoughStock)
  {
    MakeSaleAt(l, "Oil", "Abebe", 3, 0);
  }

  /**
   From a catalogue holding only "Oil" at 10000 and no sales, selling 2 to
   "Abebe" lowers the stock by 2, records one sale of 20000, and the report
   holds the single line (Abebe, 2, Oil, 20000) with a revenue of 20000.
   */
  lemma SellTwoOil(l: Ledger, stock: int)
    requires Aligned(l) && l.products == [Product("Oil", 10000, stock)] && l.sales == []
    requires stock >= 2
    ensures var r := MakeSale(l, Some("Oil"), Some("Abebe"), Number(2));
            && r.outcome == SaleRecorded
            && r.ledger.products == [Product("Oil", 10000, stock - 2)]
            && r.ledger.sales == [Sale("Oil", 2, 20000, "Abebe")]
            && r.ledger.report == Some(Report([ReportLine("Abebe", 2, "Oil", 20000)], 20000))
  {
    MakeSaleAt(l, "Oil", "Abebe", 2, 0);
    var r := MakeSale(l, Some("Oil"), Some("Abebe"), Number(2));
    assert |r.ledger.products| == 1;
    assert r.ledger.products[0] == Product("Oil", 10000, stock - 2);
    var s := Sale("Oil", 2, 20000, "Abebe");
    assert r.ledger.sales == [s];
    OneSaleReport(s);
  }

  /**
   The Oil shortage scenario: "Oil" added with 2 in stock, "Abebe" registered,
   a sale of 3 refused; the stock stays at 2 and no sale is recorded.
   */
  lemma OilShortageScenario()
    ensures var l := OilAndAbebe(2);
            MakeSale(l, Some("Oil"), Some("Abebe"), Number(3)) == Step(l, NotEnoughStock)
  {
    SellThreeOil(OilAndAbebe(2), 2);
  }

  /**
   The Oil sale scenario: "Oil" added with 5 in stock, "Abebe" registered, a
   sale of 2 leaves 3 in stock and a single sale of 20000 in the report.
   */
  lemma OilSaleScenario()
    ensures var r := MakeSale(OilAndAbebe(5), Some("Oil"), Some("Abebe"), Number(2));
            && r.outcome == SaleRecorded
            && r.ledger.products == [Product("Oil", 10000, 3)]
            && r.ledger.sales == [Sale("Oil", 2, 20000, "Abebe")]
            && r.ledger.report == Some(Report([ReportLine("Abebe", 2, "Oil", 20000)], 20000))
  {
    SellTwoOil(OilAndAbebe(5), 5);
  }

  lemma OneSaleReport(s: Sale)
    ensures ReportOf([s]) == Report([LineOf(s)], s.total)
  {
    assert [s][..0] == [];
    assert Revenue([s]) == Revenue([]) + s.total;
    assert ReportOf([s]).lines == [LineOf(s)];
  }
}

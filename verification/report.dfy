/**
 The sales report: one line per recorded sale, in recording order, followed
 by the overall revenue. The rendered text (number formatting, the currency
 suffix) is not modelled; a line keeps the four values the text shows.
 */
module SalesReport {
  import opened Records

  datatype ReportLine = ReportLine(buyer: string, qty: int, product: string, total: int)

  datatype Report = Report(lines: seq<ReportLine>, revenue: int)

  /** What one report line says about one sale: who bought how many of what, for how much. */
  function LineOf(s: Sale): ReportLine {
    ReportLine(s.buyer, s.qty, s.product, s.total)
  }

  /**
   The reference revenue: the totals of the sales added up from the first
   sale to the last, the order in which the report loop meets them.
   */
  function Revenue(sales: seq<Sale>): int {
    if sales == [] then 0 else Revenue(sales[..|sales| - 1]) + sales[|sales| - 1].total
  }

  /** The report the frame shows for a given sale history. */
  function ReportOf(sales: seq<Sale>): Report {
    Report(seq(|sales|, i requires 0 <= i < |sales| => LineOf(sales[i])), Revenue(sales))
  }

  /** Recording one more sale raises the revenue by exactly that sale's total. */
  lemma RevenueSnoc(sales: seq<Sale>, s: Sale)
    ensures Revenue(sales + [s]) == Revenue(sales) + s.total
  {
    assert (sales + [s])[..|sales|] == sales;
  }

  /** The revenue of a history split in two is the sum of the revenues of the parts. */
  lemma {:induction false} RevenueAppend(a: seq<Sale>, b: seq<Sale>)
    ensures Revenue(a + b) == Revenue(a) + Revenue(b)
    decreases |b|
  {
    if b == [] {
      assert a + b == a;
    } else {
      var init := b[..|b| - 1];
      var last := b[|b| - 1];
      assert b == init + [last];
      assert a + b == (a + init) + [last];
      RevenueSnoc(a + init, last);
      RevenueAppend(a, init);
      RevenueSnoc(init, last);
    }
  }

  /** A history that extends another adds the revenue of the sales it appends. */
  lemma RevenueOfExtension(prefix: seq<Sale>, sales: seq<Sale>)
    requires prefix <= sales
    ensures Revenue(sales) == Revenue(prefix) + Revenue(sales[|prefix|..])
  {
    assert sales == prefix + sales[|prefix|..];
    RevenueAppend(prefix, sales[|prefix|..]);
  }

  /**
   `updateReport`: walks the sales once, emitting one line per sale and
   adding each total to a running sum that starts at zero.
   */
  method UpdateReport(sales: seq<Sale>) returns (rep: Report)
    ensures |rep.lines| == |sales|
    ensures forall i :: 0 <= i < |sales| ==>
              rep.lines[i] == ReportLine(sales[i].buyer, sales[i].qty, sales[i].product, sales[i].total)
    ensures rep.revenue == Revenue(sales)
    ensures rep == ReportOf(sales)
  {
    var lines: seq<ReportLine> := [];
    var totalRevenue := 0;
    var i := 0;
    while i < |sales|
      invariant 0 <= i <= |sales|
      invariant |lines| == i
      invariant forall k :: 0 <= k < i ==> lines[k] == LineOf(sales[k])
      invariant totalRevenue == Revenue(sales[..i])
    {
      lines := lines + [LineOf(sales[i])];
      assert sales[..i + 1] == sales[..i] + [sales[i]];
      RevenueSnoc(sales[..i], sales[i]);
      totalRevenue := totalRevenue + sales[i].total;
      i := i + 1;
    }
    assert sales[..i] == sales;
    rep := Report(lines, totalRevenue);
  }
}

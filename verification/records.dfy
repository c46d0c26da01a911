/**
 The three record classes of the grocery frame and the linear scans the
 handlers run over their lists. Prices and sale totals are whole numbers of
 the smallest currency unit, so that `qty * price` and the revenue sum are exact.
 */
module Records {
  import opened Text

  datatype Option<T> = None | Some(value: T)

  datatype Product = Product(name: string, price: int, stock: int)

  datatype Customer = Customer(name: string, phone: string)

  /** A sale copies the product and buyer names; it does not refer to the live records. */
  datatype Sale = Sale(product: string, qty: int, total: int, buyer: string)

  /** The strings the product dropdown shows, one per product. */
  function ProductNames(ps: seq<Product>): seq<string> {
    seq(|ps|, i requires 0 <= i < |ps| => ps[i].name)
  }

  /** The strings the customer dropdown shows, one per customer. */
  function CustomerNames(cs: seq<Customer>): seq<string> {
    seq(|cs|, i requires 0 <= i < |cs| => cs[i].name)
  }

  /** No two products carry names equal ignoring case. */
  predicate NamesDistinctIgnoringCase(ps: seq<Product>) {
    forall i, j :: 0 <= i < j < |ps| ==> !EqualsIgnoreCase(ps[i].name, ps[j].name)
  }

  /** No two customers carry the same phone. */
  predicate PhonesDistinct(cs: seq<Customer>) {
    forall i, j :: 0 <= i < j < |cs| ==> cs[i].phone != cs[j].phone
  }

  /**
   The scan of `addProduct`: the first position whose product name equals
   `name` ignoring case, or None when there is none.
   */
  function FindIgnoringCase(ps: seq<Product>, name: string): (r: Option<nat>)
    ensures r.Some? ==> r.value < |ps| && EqualsIgnoreCase(ps[r.value].name, name)
    ensures r.Some? ==> forall j :: 0 <= j < r.value ==> !EqualsIgnoreCase(ps[j].name, name)
    ensures r.None? <==> forall j :: 0 <= j < |ps| ==> !EqualsIgnoreCase(ps[j].name, name)
  {
    if ps == [] then None
    else if EqualsIgnoreCase(ps[0].name, name) then Some(0)
    else
      match FindIgnoringCase(ps[1..], name)
      case None => None
      case Some(k) => Some(k + 1)
  }

  /** A match at `i` with none before it is what the case-insensitive scan finds. */
  lemma FindIgnoringCaseFirst(ps: seq<Product>, name: string, i: nat)
    requires i < |ps| && EqualsIgnoreCase(ps[i].name, name)
    requires forall j :: 0 <= j < i ==> !EqualsIgnoreCase(ps[j].name, name)
    ensures FindIgnoringCase(ps, name) == Some(i)
  {
  }

  /**
   The scan of `makeSale`: the first position whose product name is exactly
   `name`, or None when there is none.
   */
  function FindExact(ps: seq<Product>, name: string): (r: Option<nat>)
    ensures r.Some? ==> r.value < |ps| && ps[r.value].name == name
    ensures r.Some? ==> forall j :: 0 <= j < r.value ==> ps[j].name != name
    ensures r.None? <==> forall j :: 0 <= j < |ps| ==> ps[j].name != name
  {
    if ps == [] then None
    else if ps[0].name == name then Some(0)
    else
      match FindExact(ps[1..], name)
      case None => None
      case Some(k) => Some(k + 1)
  }

  /** A match at `i` with none before it is what the exact scan finds. */
  lemma FindExactFirst(ps: seq<Product>, name: string, i: nat)
    requires i < |ps| && ps[i].name == name
    requires forall j :: 0 <= j < i ==> ps[j].name != name
    ensures FindExact(ps, name) == Some(i)
  {
  }

  /** The scan of `addCustomer`: whether some customer already has exactly this phone. */
  function HasPhone(cs: seq<Customer>, phone: string): (b: bool)
    ensures b <==> exists i :: 0 <= i < |cs| && cs[i].phone == phone
  {
    if cs == [] then false
    else cs[0].phone == phone || HasPhone(cs[1..], phone)
  }

  /**
   Among products whose names are distinct ignoring case, the exact-name scan
   finds position `k` when it is given the name at position `k`.
   */
  lemma FindExactOfDistinctName(ps: seq<Product>, k: nat)
    requires NamesDistinctIgnoringCase(ps)
    requires k < |ps|
    ensures FindExact(ps, ps[k].name) == Some(k)
  {
    var r := FindExact(ps, ps[k].name);
    if r.value < k {
      EqualsIgnoreCaseReflexive(ps[k].name);
      assert false;
    }
  }
}

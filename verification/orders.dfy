/** The order record, the edit form's draft of it, and the form's change
    handler with its derived total-price field. */
module Orders {
  import opened Wrappers
  import opened Decimal
  import opened NumberText

  /** An order as the store lists it. Every field is kept as the text the
      form shows; `id` is the store's identity, `orderId` the human-facing one. */
  datatype Order = Order(
    id: string,
    orderId: string,
    itemName: string,
    quantity: string,
    supplierName: string,
    unitPrice: string,
    deliveryCharges: string,
    totalPrice: string,
    status: string)

  /** The form's working copy of an order. The two identity keys are absent
      (None) until an order is copied in: the page's initial draft has only
      the seven form fields. */
  datatype Draft = Draft(
    id: Option<string>,
    orderId: Option<string>,
    itemName: string,
    quantity: string,
    supplierName: string,
    unitPrice: string,
    deliveryCharges: string,
    totalPrice: string,
    status: string)

  /** The draft the page starts with: every form field empty. */
  const InitialDraft := Draft(None, None, "", "", "", "", "", "", "")

  /** The form inputs that have a change handler. Total price is read-only. */
  datatype Field = ItemName | Quantity | SupplierName | UnitPrice | DeliveryCharges | Status

  /** The inputs the total price is derived from. */
  predicate IsPriceInput(f: Field) {
    f.Quantity? || f.UnitPrice? || f.DeliveryCharges?
  }

  function Get(d: Draft, f: Field): string {
    match f
    case ItemName => d.itemName
    case Quantity => d.quantity
    case SupplierName => d.supplierName
    case UnitPrice => d.unitPrice
    case DeliveryCharges => d.deliveryCharges
    case Status => d.status
  }

  /** Overwrites one form field of the draft with the text entered. */
  function Set(d: Draft, f: Field, v: string): (r: Draft)
    ensures Get(r, f) == v
    ensures forall g :: g != f ==> Get(r, g) == Get(d, g)
    ensures r.id == d.id && r.orderId == d.orderId && r.totalPrice == d.totalPrice
  {
    match f
    case ItemName => d.(itemName := v)
    case Quantity => d.(quantity := v)
    case SupplierName => d.(supplierName := v)
    case UnitPrice => d.(unitPrice := v)
    case DeliveryCharges => d.(deliveryCharges := v)
    case Status => d.(status := v)
  }

  /** Two drafts that agree on the identity keys, the total and every form
      field are the same draft. */
  lemma DraftExtensionality(a: Draft, b: Draft)
    requires a.id == b.id && a.orderId == b.orderId && a.totalPrice == b.totalPrice
    requires forall f :: Get(a, f) == Get(b, f)
    ensures a == b
  {
    assert Get(a, ItemName) == Get(b, ItemName);
    assert Get(a, Quantity) == Get(b, Quantity);
    assert Get(a, SupplierName) == Get(b, SupplierName);
    assert Get(a, UnitPrice) == Get(b, UnitPrice);
    assert Get(a, DeliveryCharges) == Get(b, DeliveryCharges);
    assert Get(a, Status) == Get(b, Status);
  }

  /** A value copy of an order (the object spread of handleEditOrder). */
  function DraftOf(o: Order): (d: Draft)
    ensures d.id == Some(o.id) && d.orderId == Some(o.orderId) && d.totalPrice == o.totalPrice
  {
    Draft(Some(o.id), Some(o.orderId), o.itemName, o.quantity, o.supplierName,
          o.unitPrice, o.deliveryCharges, o.totalPrice, o.status)
  }

  /** The order a draft describes, once it carries both identity keys. */
  function OrderOf(d: Draft): Option<Order> {
    if d.id.Some? && d.orderId.Some? then
      Some(Order(d.id.value, d.orderId.value, d.itemName, d.quantity, d.supplierName,
                 d.unitPrice, d.deliveryCharges, d.totalPrice, d.status))
    else None
  }

  /** A draft made from an order is that order field for field, and a draft
      that describes an order is exactly the copy of it. */
  lemma DraftRoundTrip(o: Order, d: Draft)
    ensures OrderOf(DraftOf(o)) == Some(o)
    ensures OrderOf(d) == Some(o) <==> d == DraftOf(o)
  {
  }

  /** The exact amount u × n + c, or None when one of the three is NaN. */
  ghost function ExactAmount(u: Option<Dec>, n: Option<int>, c: Option<Dec>): Option<real> {
    if u.Some? && n.Some? && c.Some? then Some(Value(u.value) * n.value as real + Value(c.value))
    else None
  }

  /** The exact amount unitPrice × quantity + deliveryCharges as the page's
      parsers read the three texts, or None when one of them reads as NaN. */
  ghost function ExactTotal(unitPrice: string, quantity: string, deliveryCharges: string): Option<real> {
    ExactAmount(ParseFloat(unitPrice), ParseInt(quantity), ParseFloat(deliveryCharges))
  }

  /** The total-price text for already parsed inputs: "" when one is NaN. */
  function TotalText(u: Option<Dec>, n: Option<int>, c: Option<Dec>): (r: string)
    ensures r == "" <==> u.None? || n.None? || c.None?
  {
    if u.Some? && n.Some? && c.Some? then
      ToFixed2(Add(MulInt(u.value, n.value), c.value))
    else ""
  }

  lemma TotalTextRounds(u: Option<Dec>, n: Option<int>, c: Option<Dec>)
    requires ExactAmount(u, n, c).Some?
    ensures var r := TotalText(u, n, c);
      && ParseFloat(r).Some?
      && ParseFloat(r).value.places == 2
      && ShowsRounded(ExactAmount(u, n, c).value, ParseFloat(r).value.units)
  {
    ToFixed2Shows(Add(MulInt(u.value, n.value), c.value));
  }

  /** calculateTotalPrice: the text the total-price field receives from the
      three raw input texts. It is "" exactly when one of them is NaN. */
  function TotalPriceText(unitPrice: string, quantity: string, deliveryCharges: string): (r: string)
    ensures r == "" <==>
      ParseFloat(unitPrice).None? || ParseInt(quantity).None? || ParseFloat(deliveryCharges).None?
  {
    TotalText(ParseFloat(unitPrice), ParseInt(quantity), ParseFloat(deliveryCharges))
  }

  /** When all three inputs parse, the total-price text reads back as a
      two-decimal amount: the exact total rounded as toFixed(2) rounds it. */
  lemma TotalPriceTextRounds(unitPrice: string, quantity: string, deliveryCharges: string)
    requires ExactTotal(unitPrice, quantity, deliveryCharges).Some?
    ensures var r := TotalPriceText(unitPrice, quantity, deliveryCharges);
      && ParseFloat(r).Some?
      && ParseFloat(r).value.places == 2
      && ShowsRounded(ExactTotal(unitPrice, quantity, deliveryCharges).value, ParseFloat(r).value.units)
  {
    TotalTextRounds(ParseFloat(unitPrice), ParseInt(quantity), ParseFloat(deliveryCharges));
  }

  /** A total that is a whole number of cents is shown exactly: the text
      reads back as that very amount. */
  lemma TotalPriceTextExact(unitPrice: string, quantity: string, deliveryCharges: string, cents: int)
    requires ExactTotal(unitPrice, quantity, deliveryCharges) == Some(cents as real / 100.0)
    ensures ParseFloat(TotalPriceText(unitPrice, quantity, deliveryCharges)) == Some(Dec(cents, 2))
  {
    TotalPriceTextRounds(unitPrice, quantity, deliveryCharges);
    var r := ParseFloat(TotalPriceText(unitPrice, quantity, deliveryCharges)).value;
    ShowsRoundedExact(cents as real / 100.0, cents, r.units);
  }

  /** The draft's total price is the one its three price inputs give. */
  predicate TotalConsistent(d: Draft) {
    d.totalPrice == TotalPriceText(d.unitPrice, d.quantity, d.deliveryCharges)
  }

  /** handleChange: stores the entered text in the named field and, when that
      field is a price input, recomputes the total price from the price
      inputs of the updated draft. */
  function HandleChange(d: Draft, f: Field, v: string): (r: Draft)
    ensures Get(r, f) == v
    ensures forall g :: g != f ==> Get(r, g) == Get(d, g)
    ensures r.id == d.id && r.orderId == d.orderId
    ensures !IsPriceInput(f) ==> r.totalPrice == d.totalPrice
    ensures IsPriceInput(f) ==> TotalConsistent(r)
  {
    var d' := Set(d, f, v);
    if IsPriceInput(f) then
      d'.(totalPrice := TotalPriceText(d'.unitPrice, d'.quantity, d'.deliveryCharges))
    else d'
  }

  /** Changing the quantity on a fresh copy of an order: the copy with the
      new quantity and the total recomputed from the order's prices. */
  lemma QuantityChangeOfCopy(o: Order, v: string)
    ensures HandleChange(DraftOf(o), Quantity, v)
      == DraftOf(o).(quantity := v, totalPrice := TotalPriceText(o.unitPrice, v, o.deliveryCharges))
  {
  }

  /** Editing a field other than the price inputs changes that field only. */
  lemma NonPriceChangeIsLocal(d: Draft, f: Field, v: string)
    requires !IsPriceInput(f)
    ensures HandleChange(d, f, v) == Set(d, f, v)
    ensures HandleChange(d, f, Get(d, f)) == d
  {
    DraftExtensionality(Set(d, f, Get(d, f)), d);
  }

  /** After a price input changes, the total price is "" exactly when one of
      the updated inputs reads as NaN, whatever the total was before. */
  lemma PriceChangeClearsTotal(d: Draft, f: Field, v: string)
    requires IsPriceInput(f)
    ensures var r := HandleChange(d, f, v);
      r.totalPrice == "" <==>
        ParseFloat(r.unitPrice).None? || ParseInt(r.quantity).None? || ParseFloat(r.deliveryCharges).None?
  {
  }

  /** After a price input changes and all three parse, the total price reads
      back as unitPrice × quantity + deliveryCharges of the updated draft,
      rounded to hundredths. */
  lemma PriceChangeRoundsTotal(d: Draft, f: Field, v: string)
    requires IsPriceInput(f)
    requires var r := HandleChange(d, f, v);
      ExactTotal(r.unitPrice, r.quantity, r.deliveryCharges).Some?
    ensures var r := HandleChange(d, f, v);
      var x := ExactTotal(r.unitPrice, r.quantity, r.deliveryCharges).value;
      && ParseFloat(r.totalPrice).Some?
      && ParseFloat(r.totalPrice).value.places == 2
      && ShowsRounded(x, ParseFloat(r.totalPrice).value.units)
  {
    var r := HandleChange(d, f, v);
    TotalPriceTextRounds(r.unitPrice, r.quantity, r.deliveryCharges);
  }

  /** The recomputed total depends only on the three price inputs after the
      edit: neither the previous total nor any other field matters. */
  lemma PriceChangeDeterministic(d1: Draft, d2: Draft, f: Field, v: string)
    requires IsPriceInput(f)
    requires forall g :: IsPriceInput(g) ==> Get(Set(d1, f, v), g) == Get(Set(d2, f, v), g)
    ensures HandleChange(d1, f, v).totalPrice == HandleChange(d2, f, v).totalPrice
  {
    var s1, s2 := Set(d1, f, v), Set(d2, f, v);
    assert Get(s1, UnitPrice) == Get(s2, UnitPrice);
    assert Get(s1, Quantity) == Get(s2, Quantity);
    assert Get(s1, DeliveryCharges) == Get(s2, DeliveryCharges);
    var r1, r2 := HandleChange(d1, f, v), HandleChange(d2, f, v);
    assert r1.totalPrice == TotalPriceText(s1.unitPrice, s1.quantity, s1.deliveryCharges);
    assert r2.totalPrice == TotalPriceText(s2.unitPrice, s2.quantity, s2.deliveryCharges);
  }

  /** Once the total agrees with the price inputs, every further edit keeps
      it so. */
  lemma ChangeKeepsTotalConsistent(d: Draft, f: Field, v: string)
    requires TotalConsistent(d)
    ensures TotalConsistent(HandleChange(d, f, v))
  {
    if !IsPriceInput(f) {
      var r := HandleChange(d, f, v);
      assert Get(r, UnitPrice) == Get(d, UnitPrice);
      assert Get(r, Quantity) == Get(d, Quantity);
      assert Get(r, DeliveryCharges) == Get(d, DeliveryCharges);
    }
  }

  /** The quantity is read as an integer: a fractional entry such as "3.7"
      counts as its whole part, "3". */
  lemma QuantityReadAsInteger(unitPrice: string, whole: string, fraction: string, deliveryCharges: string)
    requires whole != [] && AllDigits(whole) && AllDigits(fraction)
    ensures TotalPriceText(unitPrice, whole + ("." + fraction), deliveryCharges)
         == TotalPriceText(unitPrice, whole, deliveryCharges)
  {
    ParseIntOf("", whole, "." + fraction);
    ParseIntOf("", whole, "");
    assert "" + (whole + ("." + fraction)) == whole + ("." + fraction);
    assert "" + (whole + "") == whole;
  }

  /** Example: 10.5 × 3 + 2 shows as "33.50". */
  lemma TotalPriceExample()
    ensures TotalPriceText("10.5", "3", "2") == "33.50"
  {
    ReadTenPointFive();
    ReadSmallInts();
    ShowThirtyThreeFifty();
  }

  /** Example: 1.00 × 20 + 5.00 shows as "25.00". */
  lemma TotalPriceScenarioExample()
    ensures TotalPriceText("1.00", "20", "5.00") == "25.00"
  {
    ReadOneDollar();
    ReadFiveDollars();
    ReadSmallInts();
    ShowTwentyFive();
  }

  /** Example: a quantity of "abc" clears the total. */
  lemma TotalPriceClearedExample()
    ensures TotalPriceText("10.5", "abc", "2") == ""
  {
    assert SplitSign("abc") == (false, "abc");
    assert DigitRun("abc") == 0;
  }

  lemma ShowThirtyThreeFifty()
    ensures TotalText(Some(Dec(105, 1)), Some(3), Some(Dec(2, 0))) == "33.50"
  {
    var t := Add(MulInt(Dec(105, 1), 3), Dec(2, 0));
    assert t == Dec(335, 1);
    assert RoundedCents(t) == 3350;
    assert ToFixed2(t) == CentsToString(3350);
    assert CentsToString(3350) == "33.50" by {
      assert NatToString(33) == "33";
    }
  }

  lemma ShowTwentyFive()
    ensures TotalText(Some(Dec(100, 2)), Some(20), Some(Dec(500, 2))) == "25.00"
  {
    var t := Add(MulInt(Dec(100, 2), 20), Dec(500, 2));
    assert t == Dec(2500, 2);
    assert RoundedCents(t) == 2500;
    assert ToFixed2(t) == CentsToString(2500);
    assert CentsToString(2500) == "25.00" by {
      assert NatToString(25) == "25";
    }
  }

  lemma ReadTenPointFive()
    ensures ParseFloat("10.5") == Some(Dec(105, 1))
  {
    ParseFloatOf("", "10", "5", "");
    assert "" + ("10" + ("." + ("5" + ""))) == "10.5";
    assert "10" + "5" == "105" && "105"[..2] == "10" && "10"[..1] == "1" && "1"[..0] == "";
  }

  lemma ReadSmallInts()
    ensures ParseInt("3") == Some(3) && ParseInt("20") == Some(20) && ParseFloat("2") == Some(Dec(2, 0))
  {
    ReadThree();
    ReadTwenty();
    ReadTwo();
  }

  lemma ReadThree()
    ensures ParseInt("3") == Some(3)
  {
    ParseIntOf("", "3", "");
    assert "" + ("3" + "") == "3" && "3"[..0] == "";
  }

  lemma ReadTwenty()
    ensures ParseInt("20") == Some(20)
  {
    ParseIntOf("", "20", "");
    assert "" + ("20" + "") == "20" && "20"[..1] == "2" && "2"[..0] == "";
  }

  lemma ReadTwo()
    ensures ParseFloat("2") == Some(Dec(2, 0))
  {
    ParseFloatWholeOf("", "2", "");
    assert "" + ("2" + "") == "2";
    assert "2"[..0] == "" && DigitsValue("2") == 2;
  }

  lemma ReadOneDollar()
    ensures ParseFloat("1.00") == Some(Dec(100, 2))
  {
    ParseFloatOf("", "1", "00", "");
    assert "" + ("1" + ("." + ("00" + ""))) == "1.00";
    assert "1" + "00" == "100" && "100"[..2] == "10" && "10"[..1] == "1" && "1"[..0] == "";
  }

  lemma ReadFiveDollars()
    ensures ParseFloat("5.00") == Some(Dec(500, 2))
  {
    ParseFloatOf("", "5", "00", "");
    assert "" + ("5" + ("." + ("00" + ""))) == "5.00";
    assert "5" + "00" == "500" && "500"[..2] == "50" && "50"[..1] == "5" && "5"[..0] == "";
  }
}

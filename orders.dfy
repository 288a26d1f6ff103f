/** Orders (`Pedido`): a customer, a date and the ordered lines, each a
    product reference and a positive quantity. An order is built once and
    never changed. Its total is computed from the lines on demand. */
module Orders {
  import opened Common
  import opened Users
  import opened Products

  datatype Line = Line(product: Product, quantity: int)

  datatype Order = Order(id: string, customer: User, lines: seq<Line>, date: int)

  /** What every constructed order satisfies: it belongs to a customer and
      every quantity is positive. */
  predicate OrderValid(o: Order) {
    o.customer.Customer? && forall i :: 0 <= i < |o.lines| ==> o.lines[i].quantity > 0
  }

  /** The check of one input line: the product must be a product (`null`
      stands for any other value) and the quantity positive. */
  function LineFault(l: (Product?, int)): (e: Option<Error>)
    ensures l.0 == null ==> e == Some(NotAProduct)
    ensures l.0 != null && l.1 <= 0 ==> e == Some(NonPositiveQuantity)
    ensures e == None <==> l.0 != null && l.1 > 0
  {
    if l.0 == null then Some(NotAProduct)
    else if l.1 <= 0 then Some(NonPositiveQuantity)
    else None
  }

  /** `Pedido(cliente, lineas, fecha)`: rejects a non-customer, then checks
      the lines in order and keeps them, in order, with their quantities.
      An absent list of lines is the empty list. */
  method NewOrder(id: string, customer: User, lines: seq<(Product?, int)>, date: int) returns (r: Result<Order>)
    ensures !customer.Customer? ==> r == Failure(CustomerRequired)
    ensures customer.Customer? ==> (r.Failure? <==> FirstFailure(lines, LineFault) != None)
    ensures customer.Customer? && r.Failure? ==> Some(r.error) == FirstFailure(lines, LineFault)
    ensures customer.Customer? && (forall i :: 0 <= i < |lines| ==> lines[i].0 != null && lines[i].1 > 0) ==> r.Success?
    ensures r.Success? ==> r.value.id == id && r.value.customer == customer && r.value.date == date
    ensures r.Success? ==> |r.value.lines| == |lines|
    ensures r.Success? ==> forall i :: 0 <= i < |lines| ==>
      r.value.lines[i].product == lines[i].0 && r.value.lines[i].quantity == lines[i].1
    ensures r.Success? ==> OrderValid(r.value)
  {
    if !customer.Customer? {
      return Failure(CustomerRequired);
    }
    var kept: seq<Line> := [];
    for i := 0 to |lines|
      invariant |kept| == i
      invariant forall j :: 0 <= j < i ==> LineFault(lines[j]) == None
      invariant forall j :: 0 <= j < i ==> kept[j].product == lines[j].0 && kept[j].quantity == lines[j].1
    {
      var (product, quantity) := lines[i];
      if product == null {
        FirstFailureAt(lines, LineFault, i);
        return Failure(NotAProduct);
      }
      if quantity <= 0 {
        FirstFailureAt(lines, LineFault, i);
        return Failure(NonPositiveQuantity);
      }
      kept := kept + [Line(product, quantity)];
    }
    return Success(Order(id, customer, kept, date));
  }

  /** What one line contributes to the total: price times quantity. */
  function Amount(l: Line): real {
    l.product.price * l.quantity as real
  }

  /** The sum of the lines' amounts, the last line added last. */
  function Total(lines: seq<Line>): real
    decreases |lines|
  {
    if lines == [] then 0.0 else Total(lines[..|lines| - 1]) + Amount(lines[|lines| - 1])
  }

  /** `calcular_total()`: accumulates the lines' amounts in order. It only
      reads the order. */
  method CalculateTotal(order: Order) returns (total: real)
    ensures total == Total(order.lines)
    ensures order.lines == [] ==> total == 0.0
  {
    total := 0.0;
    for i := 0 to |order.lines|
      invariant total == Total(order.lines[..i])
    {
      assert order.lines[..i + 1][..i] == order.lines[..i];
      total := total + order.lines[i].product.price * order.lines[i].quantity as real;
    }
    assert order.lines[..|order.lines|] == order.lines;
  }

  /** The total of two runs of lines is the sum of their totals, so the
      total does not depend on how the lines are grouped. */
  lemma {:induction false} TotalAppend(a: seq<Line>, b: seq<Line>)
    ensures Total(a + b) == Total(a) + Total(b)
    decreases |b|
  {
    if b == [] {
      assert a + b == a;
    } else {
      var b' := b[..|b| - 1];
      assert (a + b)[..|a + b| - 1] == a + b';
      assert (a + b)[|a + b| - 1] == b[|b| - 1];
      TotalAppend(a, b');
    }
  }

  /** With non-negative prices and positive quantities, the total is
      non-negative, and it is zero exactly when there are no lines or
      every ordered product is free. */
  lemma {:induction false} TotalNonNegative(lines: seq<Line>)
    requires forall i :: 0 <= i < |lines| ==> lines[i].product.price >= 0.0 && lines[i].quantity > 0
    ensures Total(lines) >= 0.0
    ensures Total(lines) == 0.0 <==> forall i :: 0 <= i < |lines| ==> lines[i].product.price == 0.0
    decreases |lines|
  {
    if lines != [] {
      var n := |lines| - 1;
      var last := lines[n];
      assert forall i :: 0 <= i < n ==> lines[..n][i] == lines[i];
      TotalNonNegative(lines[..n]);
      assert Amount(last) >= 0.0;
      assert Amount(last) == 0.0 <==> last.product.price == 0.0;
    }
  }
}

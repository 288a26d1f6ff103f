/** Products of the catalogue. A product is a shared mutable object: the
    catalogue and the lines of every order that names it hold the same
    reference, and its stock is the only field that ever changes. */
module Products {
  import opened Common

  /** The three kinds of product and what each adds to the base product:
      `Producto`, `ProductoElectronico` (a warranty in months) and
      `ProductoRopa` (a size and a colour, stored as given). */
  datatype Kind =
    | Generic
    | Electronic(warrantyMonths: int)
    | Apparel(size: string, color: string)

  /** The construction checks, in the order the source makes them: the
      base product's price, then its stock, then the warranty of an
      electronic product. */
  function CheckProduct(price: real, stock: int, kind: Kind): (e: Option<Error>)
    ensures e == None <==> price >= 0.0 && stock >= 0 && (kind.Electronic? ==> kind.warrantyMonths >= 0)
    ensures price < 0.0 ==> e == Some(NegativePrice)
    ensures price >= 0.0 && stock < 0 ==> e == Some(NegativeStock)
    ensures price >= 0.0 && stock >= 0 && kind.Electronic? && kind.warrantyMonths < 0 ==> e == Some(NegativeWarranty)
  {
    if price < 0.0 then Some(NegativePrice)
    else if stock < 0 then Some(NegativeStock)
    else match kind
      case Electronic(months) => if months < 0 then Some(NegativeWarranty) else None
      case _ => None
  }

  class Product {
    const id: string
    const name: string
    const price: real
    const kind: Kind
    var stock: int

    /** Price and stock are never negative, nor is a warranty. */
    ghost predicate Valid()
      reads this
    {
      CheckProduct(price, stock, kind) == None
    }

    constructor (id: string, name: string, price: real, stock: int, kind: Kind)
      requires CheckProduct(price, stock, kind) == None
      ensures Valid()
      ensures this.id == id && this.name == name && this.price == price
      ensures this.stock == stock && this.kind == kind
    {
      this.id := id;
      this.name := name;
      this.price := price;
      this.stock := stock;
      this.kind := kind;
    }

    /** `hay_stock(cantidad)`: a negative quantity is an error; otherwise
        whether at least that many units are in stock. */
    function HasStock(quantity: int): (r: Result<bool>)
      reads this
      ensures r.Failure? <==> quantity < 0
      ensures r.Failure? ==> r.error == NegativeQuantity
      ensures r.Success? ==> (r.value <==> quantity <= stock)
    {
      if quantity < 0 then Failure(NegativeQuantity) else Success(stock >= quantity)
    }

    /** `actualizar_stock(delta)`: fails, leaving the stock as it was,
        exactly when the stock would drop below zero; otherwise adds
        `delta` to the stock. Nothing but the stock changes. */
    method UpdateStock(delta: int) returns (r: Outcome)
      modifies this`stock
      ensures r.Fail? <==> old(stock) + delta < 0
      ensures r.Fail? ==> r.error == InsufficientStock(id) && stock == old(stock)
      ensures r.Pass? ==> stock == old(stock) + delta && stock >= 0
      ensures old(Valid()) ==> Valid()
    {
      var updated := stock + delta;
      if updated < 0 {
        return Fail(InsufficientStock(id));
      }
      stock := updated;
      return Pass;
    }
  }

  /** The fallible constructors: `Producto(...)`, `ProductoElectronico(...)`
      and `ProductoRopa(...)`, told apart by `kind`. */
  method NewProduct(id: string, name: string, price: real, stock: int, kind: Kind) returns (r: Result<Product>)
    ensures CheckProduct(price, stock, kind).Some? ==> r == Failure(CheckProduct(price, stock, kind).value)
    ensures CheckProduct(price, stock, kind).None? ==> r.Success? && fresh(r.value) && r.value.Valid()
    ensures r.Success? ==> r.value.id == id && r.value.name == name && r.value.price == price
    ensures r.Success? ==> r.value.stock == stock && r.value.kind == kind
  {
    var check := CheckProduct(price, stock, kind);
    if check.Some? {
      return Failure(check.value);
    }
    var p := new Product(id, name, price, stock, kind);
    return Success(p);
  }
}

/** The store service (`TiendaService`): the registered users, the product
    catalogue and the placed orders, with the operations that register
    users, manage the catalogue, place orders and list a customer's order
    history. Users and products are kept in insertion-ordered dictionaries
    keyed by id; orders are kept in placement order. */
module Store {
  import opened Common
  import opened Text
  import opened Dicts
  import opened Users
  import opened Products
  import opened Orders
  import opened Checkout
  import opened History

  /** The user `registrar_usuario` builds: the kind is lower-cased and
      trimmed, then "cliente" builds a customer (which needs an address),
      "admin" or "administrador" an administrator, and anything else is
      refused. An absent kind is the empty string. */
  function MakeUser(id: string, kind: string, name: string, email: string, address: Option<string>): (r: Result<User>)
    ensures Strip(Lower(kind)) == "cliente" && (address == None || address == Some([])) ==> r == Failure(MissingAddress)
    ensures Strip(Lower(kind)) == "cliente" && address.Some? && address.value != [] ==>
      r == NewCustomer(id, name, email, address.value)
    ensures Strip(Lower(kind)) in {"admin", "administrador"} ==> r == NewAdministrator(id, name, email)
    ensures Strip(Lower(kind)) !in {"cliente", "admin", "administrador"} ==> r == Failure(UnsupportedUserKind)
    ensures r.Success? ==> r.value.id == id && WellFormed(r.value) && !r.value.Basic?
    ensures r.Success? ==> (r.value.IsAdmin() <==> Strip(Lower(kind)) != "cliente")
  {
    var t := Strip(Lower(kind));
    if t == "cliente" then
      match address
      case None => Failure(MissingAddress)
      case Some(a) => if a == [] then Failure(MissingAddress) else NewCustomer(id, name, email, a)
    else if t == "admin" || t == "administrador" then NewAdministrator(id, name, email)
    else Failure(UnsupportedUserKind)
  }

  /** The normalised kind ignores letter case and surrounding whitespace. */
  lemma NormalKind(kind: string, pad: string, pad': string)
    requires AllSpace(pad) && AllSpace(pad')
    ensures Strip(Lower(pad + kind + pad')) == Strip(Lower(kind))
    ensures Strip(Lower(Lower(kind))) == Strip(Lower(kind))
  {
    LowerConcat(pad + kind, pad');
    LowerConcat(pad, kind);
    LowerKeepsSpace(pad);
    LowerKeepsSpace(pad');
    StripIgnoresPadding(Lower(pad), Lower(kind), Lower(pad'));
    LowerIdempotent(kind);
  }

  /** The kind is matched regardless of letter case and of surrounding
      whitespace. */
  lemma MakeUserIgnoresCaseAndPadding(id: string, kind: string, pad: string, pad': string, name: string, email: string, address: Option<string>)
    requires AllSpace(pad) && AllSpace(pad')
    ensures MakeUser(id, pad + kind + pad', name, email, address) == MakeUser(id, kind, name, email, address)
    ensures MakeUser(id, Lower(kind), name, email, address) == MakeUser(id, kind, name, email, address)
  {
    NormalKind(kind, pad, pad');
  }

  /** What order items cost at the catalogue's prices: each named product's
      price times its quantity, summed over the items. */
  function Charge(catalogue: map<string, Product>, items: seq<Item>): real
    requires forall i :: 0 <= i < |items| ==> items[i].0 in catalogue
    decreases |items|
  {
    if items == [] then 0.0
    else
      var last := items[|items| - 1];
      Charge(catalogue, items[..|items| - 1]) + catalogue[last.0].price * last.1 as real
  }

  /** An order built for `items` with one line per item, holding the
      catalogue's product and the item's quantity (what PlaceOrder promises
      of the order it stores), totals the items' charge at catalogue prices. */
  lemma {:induction false} PlacedOrderTotal(catalogue: map<string, Product>, items: seq<Item>, lines: seq<Line>)
    requires |lines| == |items|
    requires forall i :: 0 <= i < |items| ==> items[i].0 in catalogue && lines[i] == Line(catalogue[items[i].0], items[i].1)
    ensures Total(lines) == Charge(catalogue, items)
    decreases |items|
  {
    if items != [] {
      var n := |items| - 1;
      PlacedOrderTotal(catalogue, items[..n], lines[..n]);
    }
  }

  class Store {
    var users: Dict<string, User>
    var products: Dict<string, Product>
    var orders: seq<Order>

    /** Every user and every product is filed under its own id, and every
        stored user is well formed. */
    ghost predicate Keyed()
      reads this`users, this`products
    {
      && users.Valid() && products.Valid()
      && (forall k :: k in users.entries ==> users.entries[k].id == k && WellFormed(users.entries[k]))
      && CatalogKeyed()
    }

    /** Every product is filed under its own id. */
    ghost predicate CatalogKeyed()
      reads this`products
    {
      forall k :: k in products.entries ==> products.entries[k].id == k
    }

    /** No product has a negative price, stock or warranty. */
    ghost predicate CatalogValid()
      reads this`products, products.entries.Values
    {
      forall k :: k in products.entries ==> products.entries[k].Valid()
    }

    /** Every stored order belongs to a customer and has positive
        quantities. */
    ghost predicate OrdersValid()
      reads this`orders
    {
      forall i :: 0 <= i < |orders| ==> OrderValid(orders[i])
    }

    /** The store's invariant. */
    ghost predicate Valid()
      reads this`users, this`products, this`orders, products.entries.Values
    {
      Keyed() && CatalogValid() && OrdersValid()
    }

    /** The catalogue's stock levels, by product id. */
    ghost function StockMap(): (s: Stocks)
      reads this`products, products.entries.Values
      ensures s.Keys == products.entries.Keys
    {
      map k | k in products.entries :: products.entries[k].stock
    }

    /** The user `userId` is registered and is a customer. */
    predicate IsCustomer(userId: string)
      reads this`users
    {
      userId in users.entries && users.entries[userId].Customer?
    }

    /** A new store has no users, no products and no orders. */
    constructor ()
      ensures Valid()
      ensures users == Empty() && products == Empty() && orders == []
    {
      users := Empty();
      products := Empty();
      orders := [];
    }

    /** `registrar_usuario`: builds the user (see MakeUser) and, when that
        succeeds, files it under its id, replacing any user of that id. */
    method RegisterUser(id: string, kind: string, name: string, email: string, address: Option<string>) returns (r: Result<User>)
      requires Valid()
      modifies this`users
      ensures Valid()
      ensures r == MakeUser(id, kind, name, email, address)
      ensures r.Failure? ==> users == old(users)
      ensures r.Success? ==> users == old(users).Put(id, r.value)
    {
      r := MakeUser(id, kind, name, email, address);
      if r.Success? {
        var u := r.value;
        users := users.Put(id, u);
        forall k | k in users.entries
          ensures users.entries[k].id == k && WellFormed(users.entries[k])
        {
          if k != id {
            assert users.Get(k) == old(users).Get(k);
          } else {
            assert users.Get(id) == Some(u);
          }
        }
      }
    }

    /** `get_usuario`: the user filed under `id`, if any. */
    function GetUser(id: string): (r: Option<User>)
      requires Keyed()
      reads this`users, this`products
      ensures r.Some? <==> id in users.entries
      ensures r.Some? ==> r.value == users.entries[id] && r.value.id == id && WellFormed(r.value)
    {
      users.Get(id)
    }

    /** `listar_usuarios`: every registered user, once each. */
    function ListUsers(): (r: seq<User>)
      requires Keyed()
      reads this`users, this`products
      ensures |r| == |users.entries| == |users.keys|
      ensures forall i :: 0 <= i < |r| ==> r[i] == users.entries[users.keys[i]] && WellFormed(r[i])
      ensures forall k :: k in users.entries ==> users.entries[k] in r
    {
      users.Values()
    }

    /** `anadir_producto_generico`, `anadir_producto_electronico` and
        `anadir_producto_ropa`: builds the product of the given kind and,
        when that succeeds, files it under its id, replacing any product of
        that id. */
    method AddProduct(id: string, name: string, price: real, stock: int, kind: Kind) returns (r: Result<Product>)
      requires Valid()
      modifies this`products
      ensures Valid()
      ensures CheckProduct(price, stock, kind).Some? ==>
        r == Failure(CheckProduct(price, stock, kind).value) && products == old(products)
      ensures CheckProduct(price, stock, kind).None? ==> r.Success?
      ensures r.Success? ==> fresh(r.value) && products == old(products).Put(id, r.value)
      ensures r.Success? ==> r.value.id == id && r.value.name == name && r.value.price == price
      ensures r.Success? ==> r.value.stock == stock && r.value.kind == kind
    {
      r := NewProduct(id, name, price, stock, kind);
      if r.Success? {
        var p := r.value;
        products := products.Put(id, p);
        forall k | k in products.entries
          ensures products.entries[k].id == k && products.entries[k].Valid()
        {
          if k != id {
            assert products.Get(k) == old(products).Get(k);
          } else {
            assert products.Get(id) == Some(p);
          }
        }
      }
    }

    /** `eliminar_producto`: removes the product filed under `id` and tells
        whether there was one. Orders that name it keep their lines. */
    method RemoveProduct(id: string) returns (removed: bool)
      requires Valid()
      modifies this`products
      ensures Valid()
      ensures removed <==> id in old(products).entries
      ensures products == old(products).Pop(id)
    {
      removed := id in products.entries;
      products := products.Pop(id);
      forall k | k in products.entries
        ensures products.entries[k].id == k && products.entries[k].Valid()
      {
        assert products.Get(k) == old(products).Get(k);
      }
    }

    /** `listar_productos`: every product of the catalogue, once each. */
    function ListProducts(): (r: seq<Product>)
      requires Keyed()
      reads this`users, this`products
      ensures |r| == |products.entries| == |products.keys|
      ensures forall i :: 0 <= i < |r| ==> r[i] == products.entries[products.keys[i]]
      ensures forall k :: k in products.entries ==> products.entries[k] in r
    {
      products.Values()
    }

    /** `get_producto`: the product filed under `id`, if any. */
    function GetProduct(id: string): (r: Option<Product>)
      requires Keyed()
      reads this`users, this`products
      ensures r.Some? <==> id in products.entries
      ensures r.Some? ==> r.value == products.entries[id] && r.value.id == id
    {
      products.Get(id)
    }

    /** The validation pass of `realizar_pedido`: each item in turn must
        have a positive quantity, a known product and enough stock for
        itself; the first item that does not is reported. It changes
        nothing. */
    method ValidateItems(items: seq<Item>, ghost s: Stocks) returns (lines: seq<(Product, int)>, e: Option<Error>)
      requires StockMap() == s
      ensures e == Validate(s, items)
      ensures e == None ==> |lines| == |items| && forall i :: 0 <= i < |lines| ==> lines[i].1 > 0
      ensures e == None ==> forall i :: 0 <= i < |items| ==>
        items[i].0 in products.entries && lines[i] == (products.entries[items[i].0], items[i].1)
    {
      lines := [];
      for i := 0 to |items|
        invariant |lines| == i
        invariant forall j :: 0 <= j < i ==> LineError(s, items[j]) == None
        invariant forall j :: 0 <= j < i ==> items[j].0 in products.entries && lines[j] == (products.entries[items[j].0], items[j].1)
      {
        var (id, quantity) := items[i];
        if quantity <= 0 {
          ValidateStopsAt(s, items, i);
          return lines, Some(NonPositiveQuantity);
        }
        var product := products.Get(id);
        if product.None? {
          ValidateStopsAt(s, items, i);
          return lines, Some(ProductNotFound(id));
        }
        var p := product.value;
        var enough := p.HasStock(quantity);
        if enough != Success(true) {
          ValidateStopsAt(s, items, i);
          return lines, Some(InsufficientStock(id));
        }
        lines := lines + [(p, quantity)];
      }
      return lines, None;
    }

    /** The stock of every product is as `t` says. */
    ghost predicate StocksAre(t: Stocks)
      reads this`products, products.entries.Values
    {
      t.Keys == products.entries.Keys && forall k :: k in products.entries ==> products.entries[k].stock == t[k]
    }

    /** One decrement of the commit pass: `actualizar_stock(-quantity)` on
        product `p`, the product filed under its id, with the stock levels
        as `t` says. */
    method DecrementOne(p: Product, quantity: int, ghost id: string, ghost t: Stocks) returns (applied: bool)
      requires CatalogKeyed() && StocksAre(t) && id in products.entries && products.entries[id] == p
      modifies p`stock
      ensures applied <==> t[id] - quantity >= 0
      ensures StocksAre(if applied then t[id := t[id] - quantity] else t)
    {
      var outcome := p.UpdateStock(-quantity);
      forall k | k in products.entries && k != id
        ensures products.entries[k] != p
      {
        assert products.entries[k].id == k;
      }
      applied := outcome.Pass?;
    }

    /** The commit pass of `realizar_pedido`: decrements each product's
        stock by its line's quantity, in order, and stops at the first
        decrement the product refuses, naming that product. */
    method Decrement(items: seq<Item>, lines: seq<(Product, int)>, ghost s0: Stocks) returns (stopped: Option<string>)
      requires CatalogKeyed() && StocksAre(s0) && NonNegative(s0)
      requires forall i :: 0 <= i < |items| ==> items[i].0 in s0
      requires |lines| == |items|
      requires forall i :: 0 <= i < |items| ==>
        items[i].0 in products.entries && lines[i] == (products.entries[items[i].0], items[i].1)
      modifies products.entries.Values
      ensures StocksAre(Commit(s0, items).stocks) && NonNegative(Commit(s0, items).stocks)
      ensures stopped.Some? <==> Commit(s0, items).Stopped?
      ensures stopped.Some? ==> stopped.value == Commit(s0, items).at
    {
      ghost var t := s0;
      for i := 0 to |lines|
        invariant Commit(s0, items[..i]) == Done(t)
        invariant StocksAre(t) && NonNegative(t)
      {
        var (p, quantity) := lines[i];
        var id := items[i].0;
        CommitStep(s0, items, i, t, id, quantity);
        var applied := DecrementOne(p, quantity, id, t);
        if !applied {
          CommitStoppedPersists(s0, items, i + 1);
          return Some(id);
        }
        NonNegativeUpdate(t, id, t[id] - quantity);
        t := t[id := t[id] - quantity];
      }
      assert items[..|lines|] == items;
      return None;
    }

    /** The commit pass of `realizar_pedido`, once every item has passed
        validation: the stock levels become those Checkout.Commit computes,
        and no product is left with a negative stock. */
    method CommitPass(items: seq<Item>, lines: seq<(Product, int)>, ghost s0: Stocks) returns (stopped: Option<string>)
      requires CatalogKeyed() && CatalogValid() && StockMap() == s0 && Validate(s0, items) == None
      requires |lines| == |items|
      requires forall i :: 0 <= i < |items| ==>
        items[i].0 in products.entries && lines[i] == (products.entries[items[i].0], items[i].1)
      modifies products.entries.Values
      ensures CatalogValid()
      ensures StockMap() == Commit(s0, items).stocks
      ensures stopped.Some? <==> Commit(s0, items).Stopped?
      ensures stopped.Some? ==> stopped.value == Commit(s0, items).at
    {
      assert NonNegative(s0);
      StockMapIs(s0);
      stopped := Decrement(items, lines, s0);
      StockMapIs(Commit(s0, items).stocks);
      forall k | k in products.entries
        ensures products.entries[k].Valid()
      {
        assert old(products.entries[k].Valid());
      }
    }

    /** The stock levels are those of `t` when every product's stock is. */
    lemma StockMapIs(t: Stocks)
      ensures StocksAre(t) <==> StockMap() == t
    {
    }

    /** `realizar_pedido`: the user must be a registered customer; then
        every item is validated against the stock as it stands, the stock
        of each item is decremented in order, and the order is built and
        stored. What this does to the stock levels is Checkout.Place: a
        decrement that fails leaves the earlier decrements applied and
        stores no order, which can only happen when a product id is
        repeated (see Checkout.PlaceAllOrNothing). */
    method PlaceOrder(userId: string, items: seq<Item>, orderId: string, date: int) returns (r: Result<Order>)
      requires Valid()
      modifies this`orders, products.entries.Values
      ensures Valid()
      ensures users == old(users) && products == old(products)
      ensures userId !in users.entries ==> r == Failure(UserNotFound)
      ensures userId in users.entries && !IsCustomer(userId) ==> r == Failure(NotACustomer)
      ensures !IsCustomer(userId) ==> StockMap() == old(StockMap()) && orders == old(orders)
      ensures IsCustomer(userId) ==> StockMap() == Place(old(StockMap()), items).stocks
      ensures IsCustomer(userId) && Place(old(StockMap()), items).error.Some? ==>
        r == Failure(Place(old(StockMap()), items).error.value) && orders == old(orders)
      ensures IsCustomer(userId) && Place(old(StockMap()), items).error.None? ==>
        r.Success? && orders == old(orders) + [r.value]
      ensures r.Success? ==> r.value.id == orderId && r.value.customer == users.entries[userId] && r.value.date == date
      ensures r.Success? ==> |r.value.lines| == |items|
      ensures r.Success? ==> forall i :: 0 <= i < |items| ==>
        items[i].0 in products.entries && r.value.lines[i] == Line(products.entries[items[i].0], items[i].1)
    {
      var found := users.Get(userId);
      if found.None? {
        r := Failure(UserNotFound);
      } else if !found.value.Customer? {
        r := Failure(NotACustomer);
      } else {
        r := PlaceForCustomer(found.value, items, orderId, date);
      }
    }

    /** `realizar_pedido` once the user is known to be a customer: place the
        order as Checkout.Place says, and store it when placement succeeds. */
    method PlaceForCustomer(customer: User, items: seq<Item>, orderId: string, date: int) returns (r: Result<Order>)
      requires Valid() && customer.Customer?
      modifies this`orders, products.entries.Values
      ensures Valid()
      ensures users == old(users) && products == old(products)
      ensures StockMap() == Place(old(StockMap()), items).stocks
      ensures Place(old(StockMap()), items).error.Some? ==>
        r == Failure(Place(old(StockMap()), items).error.value) && orders == old(orders)
      ensures Place(old(StockMap()), items).error.None? ==> r.Success? && orders == old(orders) + [r.value]
      ensures r.Success? ==> r.value.id == orderId && r.value.customer == customer && r.value.date == date
      ensures r.Success? ==> |r.value.lines| == |items|
      ensures r.Success? ==> forall i :: 0 <= i < |items| ==>
        items[i].0 in products.entries && r.value.lines[i] == Line(products.entries[items[i].0], items[i].1)
    {
      ghost var s0 := StockMap();
      r := Fulfil(customer, items, orderId, date, s0);
      assert StockMap() == Place(s0, items).stocks;
      if r.Success? {
        orders := orders + [r.value];
      }
    }

    /** The part of `realizar_pedido` after the customer check: the
        validation pass, the commit pass, then building the order. What it
        does to the stock levels is Checkout.Place; it stores nothing. */
    method Fulfil(customer: User, items: seq<Item>, orderId: string, date: int, ghost s0: Stocks) returns (r: Result<Order>)
      requires CatalogKeyed() && CatalogValid() && customer.Customer? && StockMap() == s0
      modifies products.entries.Values
      ensures CatalogValid()
      ensures StockMap() == Place(s0, items).stocks
      ensures r.Failure? <==> Place(s0, items).error.Some?
      ensures r.Failure? ==> r.error == Place(s0, items).error.value
      ensures r.Success? ==> OrderValid(r.value)
      ensures r.Success? ==> r.value.id == orderId && r.value.customer == customer && r.value.date == date
      ensures r.Success? ==> |r.value.lines| == |items|
      ensures r.Success? ==> forall i :: 0 <= i < |items| ==>
        items[i].0 in products.entries && r.value.lines[i] == Line(products.entries[items[i].0], items[i].1)
    {
      var lines, invalid := ValidateItems(items, s0);
      if invalid.Some? {
        return Failure(invalid.value);
      }
      var stopped := CommitPass(items, lines, s0);
      if stopped.Some? {
        return Failure(InsufficientStock(stopped.value));
      }
      var order := BuildOrder(orderId, customer, lines, date);
      r := Success(order);
    }

    /** `Pedido(cliente, lineas)` on lines that passed validation: it
        cannot fail, and keeps the lines in order. */
    static method BuildOrder(id: string, customer: User, lines: seq<(Product, int)>, date: int) returns (order: Order)
      requires customer.Customer? && forall i :: 0 <= i < |lines| ==> lines[i].1 > 0
      ensures OrderValid(order) && order.id == id && order.customer == customer && order.date == date
      ensures |order.lines| == |lines| && forall i :: 0 <= i < |lines| ==> order.lines[i] == Line(lines[i].0, lines[i].1)
    {
      var made := NewOrder(id, customer, lines, date);
      order := made.value;
      forall i | 0 <= i < |lines|
        ensures order.lines[i] == Line(lines[i].0, lines[i].1)
      {
        assert order.lines[i].product == lines[i].0 && order.lines[i].quantity == lines[i].1;
      }
    }

    /** `listar_pedidos_por_usuario`: the orders of customer `uid`, sorted by
        date; orders of the same date stay in placement order. */
    function ListOrdersByUser(uid: string): (r: seq<Order>)
      reads this`orders
      ensures SortedByDate(r)
      ensures multiset(r) == multiset(OfCustomer(orders, uid))
      ensures forall i :: 0 <= i < |r| ==> r[i].customer.id == uid && r[i] in orders
      ensures forall i :: 0 <= i < |orders| && orders[i].customer.id == uid ==> orders[i] in r
      ensures forall d :: WithDate(r, d) == OfCustomer(WithDate(orders, d), uid)
    {
      var mine := OfCustomer(orders, uid);
      SortByDateCorrect(mine);
      OfCustomerKeepsOrder(orders, uid);
      var r := SortByDate(mine);
      assert forall i :: 0 <= i < |r| ==> r[i] in multiset(mine);
      assert forall i :: 0 <= i < |orders| && orders[i].customer.id == uid ==> orders[i] in multiset(r);
      r
    }
  }
}

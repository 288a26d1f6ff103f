# Online store (TiendaService) in Dafny

This project models the domain core of a small in-memory online store and
proves properties of that model. The store service (`TiendaService`) keeps
three collections: registered users keyed by id, a product catalogue keyed
by id, and the placed orders in placement order. It registers users,
manages the catalogue, places orders and lists a customer's order history.

- Users (`Usuario`, `Cliente`, `Administrador`) are values. They are
  validated once, when built: name, email and a customer's address are
  trimmed and must not be empty.
- Products (`Producto`, `ProductoElectronico`, `ProductoRopa`) are shared
  mutable objects, a Dafny `class`. The catalogue and every order line that
  names a product hold the same reference, and only the stock ever changes.
- Orders (`Pedido`) are values. Each holds a customer, a date and lines of
  (product reference, positive quantity). The total is the sum of price
  times quantity.

Order placement (`realizar_pedido`) has two passes:

- The validation pass checks each item alone against the stock as it
  stands: a positive quantity, a known product, enough stock.
- The commit pass then calls `actualizar_stock(-quantity)` item by item.

The stock arithmetic is stated over a snapshot map (product id to stock) in
module `Checkout`. `Checkout.Place` is what placement does to that map. The
store's `PlaceOrder` is proved to leave the catalogue's stock levels exactly
as `Checkout.Place` says.

Placement is all-or-nothing only when no product id repeats. A failed
validation changes nothing. With distinct ids, validation passing means
every decrement is applied (`Checkout.PlaceAllOrNothing`). With a repeated
id, each item can pass validation on its own, yet the commit pass can refuse
a later decrement. The earlier decrements then stay applied and no order is
stored. `Checkout.RepeatedIdCommitsPartially` shows this: two items of 3
units against a stock of 5. One might expect placement to be
all-or-nothing for every list of items; the code makes it so only for
distinct ids, and the model follows the code.

Modules:

| module | content |
|---|---|
| `Common` | `Option`, `Result`, `Outcome`, the error kinds, and the first-failure scan |
| `Text` | ASCII whitespace stripping and lower-casing |
| `Dicts` | an insertion-ordered dictionary with Python `dict` semantics |
| `Users` | the user datatype and its constructors |
| `Products` | the product class |
| `Orders` | the order datatype, its constructor and its total |
| `Checkout` | the stock arithmetic of placement |
| `History` | a customer's orders, stably sorted by date |
| `Store` | the store class |

Identifiers (`uuid4()`) and timestamps (`datetime.now()`) are parameters of
the operations that create users, products and orders.

## Model

| member | source | states |
|---|---|---|
| Common.FirstFailure | practica3_tienda_api/Services/Tienda_service.py:83-92 | a loop that raises at its first bad element reports no error exactly when every element passes |
| Common.FirstFailureAt | practica3_tienda_api/Services/Tienda_service.py:83-92 | when every element before `k` passes and element `k` fails, the scan reports exactly element `k`'s error |
| Text.TrimStart | src/models/Usuario.py:11-12 | the result is a suffix of the input, everything dropped is whitespace, it does not start with whitespace, and it is empty exactly when the input is all whitespace |
| Text.TrimEnd | src/models/Usuario.py:11-12 | the result is a prefix of the input, everything dropped is whitespace, it does not end with whitespace, and it is empty exactly when the input is all whitespace |
| Text.Strip | src/models/Usuario.py:11-16 | `strip()` leaves no whitespace at either end, never lengthens, and is empty exactly when the input is all whitespace (the emptiness tests of lines 13-16) |
| Text.StripIgnoresPadding | src/models/Usuario.py:11-12 | whitespace added on both sides does not change what `strip()` returns; a string without surrounding whitespace strips to itself |
| Text.StripIdempotent | src/models/Usuario.py:17-19 | stripping a stripped value changes nothing, so the stored fields are in normal form |
| Text.LowerChar | practica3_tienda_api/Services/Tienda_service.py:14 | each upper-case ASCII letter becomes the lower-case letter 32 code points above it; every other character is kept |
| Text.Lower | practica3_tienda_api/Services/Tienda_service.py:14 | `lower()` keeps the length and lower-cases each character in place |
| Text.LowerThenStrip | practica3_tienda_api/Services/Tienda_service.py:14 | lower-casing then stripping the kind gives the same string as stripping then lower-casing |
| Dicts.Dict.Get | practica3_tienda_api/Services/Tienda_service.py:28-30 | `dict.get(k)` returns a value exactly when `k` is a key, and then the value stored under `k` |
| Dicts.Dict.Put | practica3_tienda_api/Services/Tienda_service.py:25 | `d[k] = v` makes `get(k)` return `v` and leaves every other key's value as it was; a present key keeps its position and a new key goes last |
| Dicts.Dict.Pop | practica3_tienda_api/Services/Tienda_service.py:63 | `pop(k, None)` leaves `k` absent, every other key's value as it was, and one key fewer exactly when `k` was present |
| Dicts.Dict.Values | practica3_tienda_api/Services/Tienda_service.py:36 | `list(d.values())` lists the value of each key once, in key insertion order |
| Dicts.Empty | practica3_tienda_api/Services/Tienda_service.py:8-9 | `{}` is a valid dictionary with no entries |
| Users.User.IsAdmin | src/models/Usuario.py:21-22 | `is_admin()` is true exactly for an administrator: false for a plain user and a customer, true through the override at lines 42-43 |
| Users.CheckNameEmail | src/models/Usuario.py:11-16 | a name that is empty after trimming fails with the name error; otherwise an email that is empty after trimming fails with the email error; both non-empty pass |
| Users.NewUser | src/models/Usuario.py:10-19 | a plain user fails with the first field error; otherwise it stores the trimmed name and email, is well formed and is not an administrator |
| Users.NewCustomer | src/models/Usuario.py:29-35 | a customer first runs the base checks, then fails on an address that is empty after trimming; otherwise it stores all three fields trimmed |
| Users.NewAdministrator | src/models/Usuario.py:41-43 | an administrator runs the base checks only and stores the trimmed name and email; it is an administrator |
| Users.RebuildCustomer | src/models/Usuario.py:29-35 | building a customer from the fields a customer stores gives back that same customer |
| Users.CustomerIgnoresPadding | src/models/Usuario.py:11-32 | whitespace around name, email and address changes neither the customer built nor the error reported |
| Products.CheckProduct | practica3_tienda_api/models/Producto.py:12-48 | construction checks the price first, then the stock, then an electronic product's warranty; each negative value fails with its own error, and all three non-negative pass |
| Products.Product.constructor | practica3_tienda_api/models/Producto.py:18-21 | the fields are stored as given and the product is valid |
| Products.Product.HasStock | practica3_tienda_api/models/Producto.py:24-28 | `hay_stock(c)` fails exactly when `c < 0`; otherwise it answers `stock >= c`; it reads the product and changes nothing |
| Products.Product.UpdateStock | practica3_tienda_api/models/Producto.py:30-35 | `actualizar_stock(d)` fails exactly when `stock + d < 0`, leaving the stock unchanged; otherwise the stock becomes `stock + d >= 0`; only the stock can change, and validity is preserved |
| Products.NewProduct | practica3_tienda_api/models/Producto.py:11-58 | a failed check gives that check's error; otherwise a fresh, valid product that stores id, name, price, stock and kind, including size and colour as given |
| Orders.LineFault | src/models/Pedido.py:28-33 | a line fails on a value that is not a product, then on a quantity that is not positive, and passes otherwise |
| Orders.NewOrder | src/models/Pedido.py:16-34 | a non-customer fails; otherwise the first bad line's error is reported, or the order keeps id, customer, date and every line in order with its quantity, and is valid |
| Orders.CalculateTotal | src/models/Pedido.py:37-41 | the loop's total is the sum of price times quantity over the lines, and 0 with no lines; it only reads the order |
| Orders.TotalAppend | src/models/Pedido.py:37-41 | the total of two runs of lines is the sum of their totals |
| Orders.TotalNonNegative | src/models/Pedido.py:37-41 | with non-negative prices and positive quantities the total is non-negative, and it is zero exactly when every ordered product is free |
| Checkout.LineError | practica3_tienda_api/Services/Tienda_service.py:84-91 | an item fails on a non-positive quantity, then on an unknown product, then on a stock below the quantity, in that order, and passes otherwise |
| Checkout.Validate | practica3_tienda_api/Services/Tienda_service.py:82-92 | validation passes exactly when every item passes on its own, and then every item names a known product with a quantity between 1 and its stock |
| Checkout.ValidateStopsAt | practica3_tienda_api/Services/Tienda_service.py:83-91 | validation reports the error of the first failing item |
| Checkout.Commit | practica3_tienda_api/Services/Tienda_service.py:94-96 | the commit pass keeps the set of products |
| Checkout.CommitStep | practica3_tienda_api/Services/Tienda_service.py:95-96 | one more item either stops the pass, if its decrement would go below zero, or applies that decrement |
| Checkout.CommitStoppedPersists | practica3_tienda_api/Services/Tienda_service.py:95-96 | once the commit pass has stopped, later items change nothing |
| Checkout.CommitCharacterized | practica3_tienda_api/Services/Tienda_service.py:94-96 | the commit pass applies every decrement exactly when, for each product, the total requested is at most its stock, and then it deducts those totals |
| Checkout.CommitStopsAfterPrefix | practica3_tienda_api/Services/Tienda_service.py:94-96 | a stopped commit pass stops at some item `n`, naming that item's product, with exactly the decrements of the items before `n` applied |
| Checkout.DistinctIdsCommitFully | practica3_tienda_api/Services/Tienda_service.py:82-96 | with distinct ids, validation passing makes the commit pass apply every decrement; each named product loses exactly its quantity and stays non-negative, and the others keep their stock |
| Checkout.Place | practica3_tienda_api/Services/Tienda_service.py:81-96 | a validation error is reported with the stock levels untouched |
| Checkout.PlaceCharacterized | practica3_tienda_api/Services/Tienda_service.py:81-96 | placement succeeds exactly when validation passes and every product's total request fits its stock; success deducts those totals and leaves no stock negative; failure leaves the decrements of some prefix of the items applied |
| Checkout.PlaceAllOrNothing | practica3_tienda_api/Services/Tienda_service.py:81-96 | with distinct ids, a failure leaves every stock level as it was, and a success takes exactly each item's quantity off its product and leaves the other products as they were |
| Checkout.RepeatedIdCommitsPartially | practica3_tienda_api/Services/Tienda_service.py:90-96 | two items of 3 units of a product with 5 in stock both pass validation, then the second decrement is refused with 2 units left, so placement fails after changing the stock |
| History.OfCustomer | practica3_tienda_api/Services/Tienda_service.py:103 | the filter keeps only orders of customer `uid`, all taken from the store, and keeps every such order |
| History.OfCustomerKeepsOrder | practica3_tienda_api/Services/Tienda_service.py:103 | the filter keeps placement order: for every date, the customer's orders of that date are the store's orders of that date that belong to the customer, in the same order |
| History.SortByDateCorrect | practica3_tienda_api/Services/Tienda_service.py:104 | `sorted(key=fecha)` returns its input permuted, in non-decreasing date order, with the orders of each date in their original order (stability) |
| Store.MakeUser | practica3_tienda_api/Services/Tienda_service.py:14-23 | the kind is lower-cased and trimmed: "cliente" without an address or with an empty one fails, with an address builds a customer; "admin" and "administrador" build an administrator; any other kind fails; a built user has the given id, is well formed, and is an administrator exactly when the kind is not "cliente" |
| Store.NormalKind | practica3_tienda_api/Services/Tienda_service.py:14 | the normalised kind ignores surrounding whitespace and a second lower-casing |
| Store.PlacedOrderTotal | practica3_tienda_api/Services/Tienda_service.py:82-100 | the order `realizar_pedido` stores, one line per item holding the catalogue's product and the item's quantity, totals (`calcular_total`, src/models/Pedido.py:37-41) the sum over the items of catalogue price times quantity |
| Store.MakeUserIgnoresCaseAndPadding | practica3_tienda_api/Services/Tienda_service.py:14-23 | padding the kind with whitespace, or lower-casing it first, builds the same user or the same error |
| Store.Store.constructor | practica3_tienda_api/Services/Tienda_service.py:7-10 | a new store has no users, no products and no orders, and satisfies the store invariant |
| Store.Store.RegisterUser | practica3_tienda_api/Services/Tienda_service.py:13-26 | the result is what MakeUser builds; a failure leaves the users as they were; a success files the user under its id with `Dict.Put`, so `get_usuario(id)` returns it and no other user entry changes; the store invariant is preserved |
| Store.Store.GetUser | practica3_tienda_api/Services/Tienda_service.py:28-30 | `get_usuario(id)` returns a user exactly when one is filed under `id`; that user has this id and is well formed |
| Store.Store.ListUsers | practica3_tienda_api/Services/Tienda_service.py:32-36 | `listar_usuarios()` lists every registered user once, in registration order |
| Store.Store.AddProduct | practica3_tienda_api/Services/Tienda_service.py:41-59 | the three `anadir_producto_*` methods: a failed check leaves the catalogue unchanged and reports that check's error; otherwise a fresh product with the given fields is filed under its id and the store invariant is preserved |
| Store.Store.RemoveProduct | practica3_tienda_api/Services/Tienda_service.py:61-63 | `eliminar_producto(id)` answers true exactly when `id` was in the catalogue, and leaves the catalogue as `Dict.Pop` says: `id` absent and every other entry unchanged |
| Store.Store.ListProducts | practica3_tienda_api/Services/Tienda_service.py:65-67 | `listar_productos()` lists every product once, in insertion order |
| Store.Store.GetProduct | practica3_tienda_api/Services/Tienda_service.py:69-71 | `get_producto(id)` returns a product exactly when one is filed under `id`, and it has this id |
| Store.Store.ValidateItems | practica3_tienda_api/Services/Tienda_service.py:82-92 | the validation loop reports what Checkout.Validate reports on the current stock levels; on success it returns, in order, the catalogue's product for each item with the item's positive quantity |
| Store.Store.DecrementOne | practica3_tienda_api/Services/Tienda_service.py:96 | one `actualizar_stock(-quantity)` applies exactly when the stock stays non-negative, and changes that product's stock only |
| Store.Store.Decrement | practica3_tienda_api/Services/Tienda_service.py:94-96 | the decrement loop leaves the stock levels Checkout.Commit computes, stops exactly when Commit stops, and names the product it stopped at |
| Store.Store.CommitPass | practica3_tienda_api/Services/Tienda_service.py:94-96 | after validation, the commit pass leaves the stock levels of Checkout.Commit and keeps every product valid |
| Store.Store.PlaceOrder | practica3_tienda_api/Services/Tienda_service.py:74-100 | an unknown user fails, and so does a user who is not a customer, with nothing changed; for a customer, the stock levels become those of Checkout.Place; a placement error is reported with no order stored; a success appends exactly one order at the end, with the given id and date, the customer, and one line per item in input order naming the catalogue's product; users and catalogue entries are unchanged and the store invariant is preserved |
| Store.Store.PlaceForCustomer | practica3_tienda_api/Services/Tienda_service.py:81-100 | for a customer, the stock levels become those of Checkout.Place; the order is stored exactly when placement reports no error |
| Store.Store.Fulfil | practica3_tienda_api/Services/Tienda_service.py:81-98 | validation, then the commit pass, then the order: fails exactly when Checkout.Place reports an error, with that error, and otherwise builds a valid order with one line per item |
| Store.Store.BuildOrder | practica3_tienda_api/Services/Tienda_service.py:98 | `Pedido(usuario, lineas)` on validated lines cannot fail, and keeps the lines in order |
| Store.Store.ListOrdersByUser | practica3_tienda_api/Services/Tienda_service.py:102-104 | `listar_pedidos_por_usuario(uid)` returns exactly the orders of customer `uid` (membership both ways, as a permutation of the filtered list), in non-decreasing date order; for every date, its orders of that date are the store's orders of that date belonging to `uid`, in placement order |

## Left out

- `int(...)` and `float(...)` coercions of quantities, stocks, warranties and prices are not modelled. Inputs are already integers, and prices are Dafny `real`s.
- Floating-point rounding of prices and of the accumulated total is not modelled. The total is exact over `real`.
- `uuid4()` ids and `datetime.now()` timestamps are operation parameters. Filing under an id that is already present replaces the entry, as the dictionary assignment does.
- `None` arguments are mostly not represented. A missing name, email or kind is the empty string, since `x or ""` maps `None` to it. A missing address is `Option.None`, and missing order lines are the empty sequence.
- A value that is not a `Producto` in an order line is represented as `null`.
- Python's `strip()` and `lower()` are modelled on ASCII only. The model strips the ten ASCII whitespace characters Python strips: space, tab, line feed, vertical tab, form feed, carriage return and U+001C to U+001F. Python also strips non-ASCII whitespace, such as U+0085 and U+00A0, which the model keeps. `lower()` changes only the letters A to Z; Unicode case mappings are not modelled.
- The exception classes (`ValueError`, `TypeError`) and their message texts become one `Error` datatype. Stock errors name the product's id rather than its name.
- All `__str__` formatting is left out.
- `src/main.py`, `practica3_tienda_api/main.py` and `practica3_tienda_api/schemas.py` are not part of this model. They are a demonstration script, the web route and request schemas.
- The concurrent oversell race is not modelled. The code is single-threaded.
- Dicts.Dict.Pop: the contract does not state that the remaining keys keep their relative order, although the definition keeps it.
- Order lines hold live references to the catalogue's product objects, as the code does, not snapshots of the product at ordering time. A product's stock seen through an old order therefore changes with later orders. Prices never change, so totals are unaffected.

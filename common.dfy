/** Failure-carrying values shared by every module of the store, and the
    store's error kinds. Each raise in the store becomes one Error value. */
module Common {

  datatype Option<T> = None | Some(value: T)

  /** One constructor per distinct failure the store reports. */
  datatype Error =
    // Usuario / Cliente construction
    | EmptyName
    | EmptyEmail
    | EmptyAddress
    // TiendaService.registrar_usuario
    | MissingAddress
    | UnsupportedUserKind
    // Producto construction
    | NegativePrice
    | NegativeStock
    | NegativeWarranty
    // Producto.hay_stock / Producto.actualizar_stock
    | NegativeQuantity
    | InsufficientStock(product: string)
    // TiendaService.realizar_pedido
    | UserNotFound
    | NotACustomer
    | NonPositiveQuantity
    | ProductNotFound(product: string)
    // Pedido construction (TypeError in the source)
    | CustomerRequired
    | NotAProduct

  datatype Result<T> = Success(value: T) | Failure(error: Error)

  /** The outcome of an operation that returns nothing on success. */
  datatype Outcome = Pass | Fail(error: Error)

  /** The error of the first element of `s` that `check` rejects, scanning
      from the front, as a loop that raises on its first bad element does. */
  function FirstFailure<T>(s: seq<T>, check: T -> Option<Error>): (r: Option<Error>)
    ensures r == None <==> forall i :: 0 <= i < |s| ==> check(s[i]) == None
    decreases |s|
  {
    if s == [] then None
    else if check(s[0]) != None then check(s[0])
    else
      assert forall i :: 1 <= i < |s| ==> s[i] == s[1..][i - 1];
      FirstFailure(s[1..], check)
  }

  /** Scanning stops at the first bad element: if every element before `k`
      passes and `s[k]` fails, the scan reports exactly `s[k]`'s error. */
  lemma FirstFailureAt<T>(s: seq<T>, check: T -> Option<Error>, k: nat)
    requires k < |s| && check(s[k]) != None
    requires forall i :: 0 <= i < k ==> check(s[i]) == None
    ensures FirstFailure(s, check) == check(s[k])
    decreases k
  {
    if k > 0 {
      assert check(s[0]) == None;
      assert forall i :: 0 <= i < k - 1 ==> s[1..][i] == s[i + 1];
      FirstFailureAt(s[1..], check, k - 1);
    }
  }
}

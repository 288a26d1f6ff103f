/** Users of the store: a plain user, a customer (with a postal address)
    and an administrator. Users are values: they are validated once, when
    built, and never change afterwards. */
module Users {
  import opened Common
  import opened Text

  datatype User =
    | Basic(id: string, name: string, email: string)
    | Customer(id: string, name: string, email: string, address: string)
    | Administrator(id: string, name: string, email: string)
  {
    /** `is_admin()`: only an administrator is one. */
    predicate IsAdmin()
      ensures IsAdmin() <==> this.Administrator?
    {
      match this
      case Administrator(_, _, _) => true
      case Basic(_, _, _) => false
      case Customer(_, _, _, _) => false
    }
  }

  /** A field the constructors accept and store: non-empty, no surrounding
      whitespace. */
  predicate Normal(s: string) {
    s != [] && Trimmed(s)
  }

  /** What every constructed user satisfies. */
  predicate WellFormed(u: User) {
    Normal(u.name) && Normal(u.email) && (u.Customer? ==> Normal(u.address))
  }

  /** The field checks shared by every kind of user, in the order the
      source makes them: the name first, then the email. */
  function CheckNameEmail(name: string, email: string): (e: Option<Error>)
    ensures AllSpace(name) ==> e == Some(EmptyName)
    ensures !AllSpace(name) && AllSpace(email) ==> e == Some(EmptyEmail)
    ensures e == None <==> !AllSpace(name) && !AllSpace(email)
  {
    if Strip(name) == [] then Some(EmptyName)
    else if Strip(email) == [] then Some(EmptyEmail)
    else None
  }

  /** `Usuario(nombre, email)`. */
  function NewUser(id: string, name: string, email: string): (r: Result<User>)
    ensures r.Failure? <==> CheckNameEmail(name, email) != None
    ensures r.Failure? ==> Some(r.error) == CheckNameEmail(name, email)
    ensures r.Success? ==> r.value == Basic(id, Strip(name), Strip(email))
    ensures r.Success? ==> WellFormed(r.value) && !r.value.IsAdmin()
  {
    var check := CheckNameEmail(name, email);
    if check.Some? then Failure(check.value)
    else
      var n, m := Strip(name), Strip(email);
      StripIdempotent(name);
      StripIdempotent(email);
      assert Normal(n) && Normal(m);
      Success(Basic(id, n, m))
  }

  /** `Cliente(nombre, email, direccion)`: the base checks, then a
      non-empty trimmed address. */
  function NewCustomer(id: string, name: string, email: string, address: string): (r: Result<User>)
    ensures CheckNameEmail(name, email) != None ==> r.Failure? && Some(r.error) == CheckNameEmail(name, email)
    ensures CheckNameEmail(name, email) == None && AllSpace(address) ==> r == Failure(EmptyAddress)
    ensures r.Success? <==> CheckNameEmail(name, email) == None && !AllSpace(address)
    ensures r.Success? ==> r.value == Customer(id, Strip(name), Strip(email), Strip(address))
    ensures r.Success? ==> WellFormed(r.value) && !r.value.IsAdmin()
  {
    match NewUser(id, name, email)
    case Failure(e) => Failure(e)
    case Success(u) =>
      if Strip(address) == [] then Failure(EmptyAddress)
      else
        StripIdempotent(address);
        Success(Customer(id, u.name, u.email, Strip(address)))
  }

  /** `Administrador(nombre, email)`: the base checks only. */
  function NewAdministrator(id: string, name: string, email: string): (r: Result<User>)
    ensures r.Failure? <==> CheckNameEmail(name, email) != None
    ensures r.Failure? ==> Some(r.error) == CheckNameEmail(name, email)
    ensures r.Success? ==> r.value == Administrator(id, Strip(name), Strip(email))
    ensures r.Success? ==> WellFormed(r.value) && r.value.IsAdmin()
  {
    match NewUser(id, name, email)
    case Failure(e) => Failure(e)
    case Success(u) => Success(Administrator(id, u.name, u.email))
  }

  /** Building a customer again from the fields a customer stores gives the
      same customer: construction only normalises, and a normal field is
      left as it is. */
  lemma RebuildCustomer(u: User)
    requires u.Customer? && WellFormed(u)
    ensures NewCustomer(u.id, u.name, u.email, u.address) == Success(u)
  {
  }

  /** Whitespace around the name, email and address does not change which
      customer is built, or which error is reported. */
  lemma CustomerIgnoresPadding(id: string, name: string, email: string, address: string,
                                np: string, np': string, ep: string, ep': string, ap: string, ap': string)
    requires AllSpace(np) && AllSpace(np') && AllSpace(ep) && AllSpace(ep') && AllSpace(ap) && AllSpace(ap')
    ensures NewCustomer(id, np + name + np', ep + email + ep', ap + address + ap') == NewCustomer(id, name, email, address)
  {
    StripIgnoresPadding(np, name, np');
    StripIgnoresPadding(ep, email, ep');
    StripIgnoresPadding(ap, address, ap');
  }
}

/** The routing table of backend/app.py: every modelled endpoint behind one
    entry point, and what holds of any sequence of requests. */
module Routes {
  import opened Schema
  import opened Api
  import opened Products
  import opened Users
  import opened Report

  /** One request to the API, with its URL parameters and JSON body. */
  datatype Request =
    | RegisterRequest(form: RegistrationForm)         // POST /api/register
    | LoginRequest(cred: Credentials)                 // POST /api/login
    | ListProducts                                    // GET /api/products
    | AddProductRequest(product: ProductForm)         // POST /api/products
    | BookRequest(productId: int)                     // PUT /api/products/<id>/book
    | UnbookRequest(productId: int)                   // PUT /api/products/<id>/unbook
    | UserDataRequest(userId: int)                    // GET /api/user/<id>
    | DeleteRequest(productId: int)                   // DELETE /api/products/<id>
    | BookedReportRequest                             // GET /api/generate-booked-pdf

  /** What the outside world contributes to one request: whether the
      database connection opens, the hash bcrypt produces for a new
      password, and bcrypt's password check. */
  datatype Env = Env(connected: bool, passwordHash: string, verify: (string, string) -> bool)

  /** The requests that only read the database. */
  predicate ReadOnly(req: Request) {
    req.LoginRequest? || req.ListProducts? || req.UserDataRequest? || req.BookedReportRequest?
  }

  /** The requests that write the `products` table. */
  predicate WritesProducts(req: Request) {
    req.AddProductRequest? || req.BookRequest? || req.UnbookRequest? || req.DeleteRequest?
  }

  /** The status codes the API answers with. */
  predicate KnownStatus(status: int) {
    status in {OK, CREATED, BAD_REQUEST, UNAUTHORIZED, NOT_FOUND, CONFLICT, SERVER_ERROR}
  }

  /** Serves one request. Reads never change the database, only a
      registration touches `users`, and registration never touches
      `products`. */
  function Dispatch(s: Store, req: Request, env: Env): (h: Handled)
    ensures KnownStatus(h.reply.status)
    ensures ReadOnly(req) ==> h.store == s
    ensures !req.RegisterRequest? ==> h.store.users == s.users && h.store.nextUserId == s.nextUserId
    ensures !WritesProducts(req) ==> h.store.products == s.products && h.store.nextProductId == s.nextProductId
    ensures !env.connected ==> h.store == s
  {
    match req
    case RegisterRequest(form) => Register(s, form, env.passwordHash, env.connected)
    case LoginRequest(cred) => Handled(Login(s, cred, env.connected, env.verify), s)
    case ListProducts => Handled(GetProducts(s, env.connected), s)
    case AddProductRequest(form) => AddProduct(s, form, env.connected)
    case BookRequest(id) => Book(s, id, env.connected)
    case UnbookRequest(id) => Unbook(s, id, env.connected)
    case UserDataRequest(id) => Handled(GetUserData(s, id, env.connected), s)
    case DeleteRequest(id) => Delete(s, id, env.connected)
    case BookedReportRequest => Handled(GenerateBookedReport(s, env.connected), s)
  }

  /** Every request keeps the database's guarantees. */
  lemma DispatchPreservesValid(s: Store, req: Request, env: Env)
    requires Valid(s)
    ensures Valid(Dispatch(s, req, env).store)
  {
  }

  /** The database after serving `reqs` in order, each with its own
      environment. */
  function Run(s: Store, reqs: seq<(Request, Env)>): (after: Store)
    ensures (forall i | 0 <= i < |reqs| :: ReadOnly(reqs[i].0)) ==> after == s
    ensures (forall i | 0 <= i < |reqs| :: !reqs[i].0.RegisterRequest?) ==> after.users == s.users
    ensures (forall i | 0 <= i < |reqs| :: !WritesProducts(reqs[i].0)) ==> after.products == s.products
    decreases |reqs|
  {
    if reqs == [] then s
    else Run(Dispatch(s, reqs[0].0, reqs[0].1).store, reqs[1..])
  }

  /** Any sequence of requests, from a valid database, leaves it valid. */
  lemma {:induction false} RunPreservesValid(s: Store, reqs: seq<(Request, Env)>)
    requires Valid(s)
    ensures Valid(Run(s, reqs))
    decreases |reqs|
  {
    if reqs != [] {
      DispatchPreservesValid(s, reqs[0].0, reqs[0].1);
      RunPreservesValid(Dispatch(s, reqs[0].0, reqs[0].1).store, reqs[1..]);
    }
  }

  /** Every database reached from the empty one by requests is valid: ids
      are unique and fresh, and usernames and emails are unique. */
  lemma ReachableValid(reqs: seq<(Request, Env)>)
    ensures Valid(Run(EmptyStore, reqs))
  {
    EmptyStoreValid();
    RunPreservesValid(EmptyStore, reqs);
  }
}

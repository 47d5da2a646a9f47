/** What a handler answers: a status code and a JSON payload. */
module Api {
  import opened Wrappers
  import opened Schema

  const OK := 200
  const CREATED := 201
  const BAD_REQUEST := 400
  const UNAUTHORIZED := 401
  const NOT_FOUND := 404
  const CONFLICT := 409
  const SERVER_ERROR := 500

  /** The fixed `message` texts of the replies, one tag per distinct text. */
  datatype Msg =
    | MissingCredentials      // login and password are required
    | MissingEmail            // an email is required
    | DbUnavailable           // the database connection could not be opened
    | UnexpectedError         // a non-database exception was caught
    | UsernameTaken           // a user with this login already exists
    | EmailTaken              // a user with this email already exists
    | UniqueConflict          // some other uniqueness error on registration
    | Registered
    | BadCredentials          // wrong login or password, never saying which
    | MissingNameOrPrice
    | PriceNotNumber
    | NegativePrice
    | ProductNotFound
    | AlreadyBooked
    | BookedOk(productId: int)
    | NotBooked
    | UnbookedOk(productId: int)
    | UserNotFound
    | ProductDeleted
    | NoBookedProducts

  /** One product as listed by `GET /api/products`. */
  datatype Listing = Listing(id: int, product: Product)

  /** The public part of a user: never the password hash, never the role. */
  datatype Profile = Profile(
    username: string,
    fullName: Option<string>,
    phoneNumber: Option<string>,
    email: string)

  /** A cell of the report table: text, or a price rendered as text. */
  datatype Cell = Text(text: string) | Amount(value: real)

  /** A row of the two-column report table. */
  datatype Row = Row(name: Cell, price: Cell)

  datatype Body =
    | Message(msg: Msg)
    | LoggedIn(userId: int, role: string)
    | ProductList(items: seq<Listing>)
    | ProductAdded(productId: int)
    | UserData(profile: Profile)
    | BookedTable(rows: seq<Row>)

  datatype Reply = Reply(status: int, body: Body)

  /** The reply of a handler that may write, with the database after it. */
  datatype Handled = Handled(reply: Reply, store: Store)

  function Fail(status: int, msg: Msg): Reply {
    Reply(status, Message(msg))
  }

  /** Python truthiness of a request field: absent (None) and "" are both
      treated as missing. */
  predicate Truthy(field: Option<string>) {
    field.Some? && field.value != ""
  }
}

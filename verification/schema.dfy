/** The two tables of the backend's PostgreSQL database, held as a value. */
module Schema {
  import opened Wrappers

  /** A row of `products`. `price` is the exact NUMERIC value (NULL allowed);
      `isBooked` is the nullable BOOLEAN column, so it has three values. */
  datatype Product = Product(
    name: string,
    price: Option<real>,
    isBooked: Option<bool>,
    imageUrl: Option<string>)

  /** A row of `users`. */
  datatype User = User(
    username: string,
    passwordHash: string,
    role: string,
    fullName: Option<string>,
    phoneNumber: Option<string>,
    email: string)

  /** Both tables, keyed by their `id` column, and the next value of each
      table's id sequence. */
  datatype Store = Store(
    products: map<int, Product>,
    users: map<int, User>,
    nextProductId: int,
    nextUserId: int)

  /** The role every registration assigns. */
  const DefaultRole: string := "user"

  /** The database before any request: empty tables, sequences starting at 1. */
  const EmptyStore: Store := Store(map[], map[], 1, 1)

  predicate UsernameInUse(users: map<int, User>, username: string) {
    exists id | id in users :: users[id].username == username
  }

  predicate EmailInUse(users: map<int, User>, email: string) {
    exists id | id in users :: users[id].email == email
  }

  /** What holds of every database the API produces: ids were handed out
      by the sequences (so the next value is fresh), the UNIQUE constraints
      on `users.username` and `users.email` hold, and no price is negative
      (the add-product check rejects negative prices). */
  predicate Valid(s: Store) {
    && s.nextProductId >= 1
    && s.nextUserId >= 1
    && (forall id | id in s.products :: 1 <= id < s.nextProductId)
    && (forall id | id in s.users :: 1 <= id < s.nextUserId)
    && (forall id | id in s.products && s.products[id].price.Some? :: s.products[id].price.value >= 0.0)
    && (forall a, b | a in s.users && b in s.users && s.users[a].username == s.users[b].username :: a == b)
    && (forall a, b | a in s.users && b in s.users && s.users[a].email == s.users[b].email :: a == b)
  }

  lemma EmptyStoreValid()
    ensures Valid(EmptyStore)
  {
  }
}

/** The product handlers of backend/app.py: `get_products`, `add_product`,
    `book_product`, `unbook_product` and `delete_product`. */
module Products {
  import opened Wrappers
  import opened Ordering
  import opened Schema
  import opened Api

  /** `items` is the whole products table ordered by id ascending, each row
      exactly as stored. */
  predicate IsCatalog(items: seq<Listing>, products: map<int, Product>) {
    && (forall i, j | 0 <= i < j < |items| :: items[i].id < items[j].id)
    && (forall i | 0 <= i < |items| :: items[i].id in products && items[i].product == products[items[i].id])
    && (forall id | id in products :: exists i | 0 <= i < |items| :: items[i].id == id)
  }

  /** `SELECT id, name, price, is_booked, image_url FROM products ORDER BY id`. */
  function Catalog(products: map<int, Product>): (items: seq<Listing>)
    ensures IsCatalog(items, products)
    ensures |items| == |products|
  {
    var ids := SortedElements(products.Keys);
    assert forall i | 0 <= i < |ids| :: ids[i] in products by {
      forall i | 0 <= i < |ids| ensures ids[i] in products {
        assert ids[i] in ids;
      }
    }
    var items := ListingsOf(ids, products);
    CatalogOfSortedKeys(ids, products);
    items
  }

  /** The rows of `products` for the given ids, in the given order. */
  function ListingsOf(ids: seq<int>, products: map<int, Product>): (items: seq<Listing>)
    requires forall i | 0 <= i < |ids| :: ids[i] in products
    ensures |items| == |ids|
    ensures forall i | 0 <= i < |ids| :: items[i] == Listing(ids[i], products[ids[i]])
  {
    seq(|ids|, i requires 0 <= i < |ids| => Listing(ids[i], products[ids[i]]))
  }

  lemma CatalogOfSortedKeys(ids: seq<int>, products: map<int, Product>)
    requires StrictlyIncreasing(ids)
    requires forall i | 0 <= i < |ids| :: ids[i] in products
    requires forall x | x in products :: x in ids
    requires |ids| == |products|
    ensures IsCatalog(ListingsOf(ids, products), products)
    ensures |ListingsOf(ids, products)| == |products|
  {
  }

  /** The ids of a listing, in order. */
  function IdsOf(items: seq<Listing>): (ids: seq<int>)
    ensures |ids| == |items|
    ensures forall i | 0 <= i < |items| :: ids[i] == items[i].id
  {
    seq(|items|, i requires 0 <= i < |items| => items[i].id)
  }

  /** The listing of a table is determined by the table: two sequences that
      both list `products` by ascending id are equal. */
  lemma CatalogUnique(a: seq<Listing>, b: seq<Listing>, products: map<int, Product>)
    requires IsCatalog(a, products) && IsCatalog(b, products)
    ensures a == b
  {
    var ia, ib := IdsOf(a), IdsOf(b);
    forall e ensures e in ia <==> e in ib {
      if e in ia {
        var i :| 0 <= i < |ia| && ia[i] == e;
        var j :| 0 <= j < |b| && b[j].id == e;
        assert ib[j] == e;
      }
      if e in ib {
        var i :| 0 <= i < |ib| && ib[i] == e;
        var j :| 0 <= j < |a| && a[j].id == e;
        assert ia[j] == e;
      }
    }
    StrictlyIncreasingUnique(ia, ib);
    forall i | 0 <= i < |a| ensures a[i] == b[i] {
      assert ia[i] == ib[i];
    }
  }

  /** When `last` is the largest id of the table, it is listed last. */
  lemma CatalogEndsWithMax(items: seq<Listing>, products: map<int, Product>, last: int)
    requires IsCatalog(items, products)
    requires last in products
    requires forall k | k in products :: k <= last
    ensures |items| > 0 && items[|items| - 1].id == last
  {
  }

  /** `GET /api/products`: the whole table by ascending id. Prices are
      returned as stored (the Decimal-to-float conversion is not modelled). */
  function GetProducts(s: Store, connected: bool): (r: Reply)
    ensures !connected ==> r == Fail(SERVER_ERROR, DbUnavailable)
    ensures connected ==> r.status == OK && r.body.ProductList? && IsCatalog(r.body.items, s.products)
  {
    if !connected then Fail(SERVER_ERROR, DbUnavailable)
    else Reply(OK, ProductList(Catalog(s.products)))
  }

  /** The `price` field of an add-product request, as `float(price)` sees it. */
  datatype PriceField =
    | PriceMissing              // the field is absent or null
    | PriceNumber(value: real)  // float() succeeds
    | PriceNotNumeric           // float() raises ValueError (a non-numeric string)
    | PriceUnconvertible        // float() raises TypeError (a list or an object)

  datatype ProductForm = ProductForm(name: Option<string>, price: PriceField, imageUrl: Option<string>)

  /** The price is present, numeric and not negative (zero is accepted). */
  predicate AcceptablePrice(price: PriceField) {
    price.PriceNumber? && price.value >= 0.0
  }

  /** `POST /api/products`: validation, then an INSERT that takes the next id
      of the sequence and leaves `is_booked` at its default FALSE. */
  function AddProduct(s: Store, form: ProductForm, connected: bool): (h: Handled)
    ensures h.reply.status == BAD_REQUEST <==>
      !Truthy(form.name) || form.price.PriceMissing? || form.price.PriceNotNumeric?
      || (form.price.PriceNumber? && form.price.value < 0.0)
    ensures h.reply.status == CREATED <==> Truthy(form.name) && AcceptablePrice(form.price) && connected
    ensures h.reply.status == SERVER_ERROR <==>
      Truthy(form.name) && (form.price.PriceUnconvertible? || (AcceptablePrice(form.price) && !connected))
    ensures h.reply.status != CREATED ==> h.store == s
    ensures h.reply.status == CREATED ==>
      var id := s.nextProductId;
      && h.reply.body == ProductAdded(id)
      && h.store.products.Keys == s.products.Keys + {id}
      && h.store.products[id] == Product(form.name.value, Some(form.price.value), Some(false),
                                         if Truthy(form.imageUrl) then form.imageUrl else None)
      && (forall k | k in s.products && k != id :: h.store.products[k] == s.products[k])
      && h.store.users == s.users
      && h.store.nextUserId == s.nextUserId
      && h.store.nextProductId > id
  {
    if !Truthy(form.name) || form.price.PriceMissing? then
      Handled(Fail(BAD_REQUEST, MissingNameOrPrice), s)
    else if form.price.PriceUnconvertible? then
      Handled(Fail(SERVER_ERROR, UnexpectedError), s)
    else if form.price.PriceNotNumeric? then
      Handled(Fail(BAD_REQUEST, PriceNotNumber), s)
    else if form.price.value < 0.0 then
      Handled(Fail(BAD_REQUEST, NegativePrice), s)
    else if !connected then
      Handled(Fail(SERVER_ERROR, DbUnavailable), s)
    else
      var id := s.nextProductId;
      // `image_url or None`: an empty URL is stored as NULL.
      var url := if Truthy(form.imageUrl) then form.imageUrl else None;
      var p := Product(form.name.value, Some(form.price.value), Some(false), url);
      Handled(Reply(CREATED, ProductAdded(id)),
              s.(products := s.products[id := p], nextProductId := id + 1))
  }

  /** `after` differs from `before` only in the booking flag of product `id`,
      which is now `Some(flag)`. */
  predicate OnlyFlagChanged(before: Store, after: Store, id: int, flag: bool)
    requires id in before.products
  {
    && after.products.Keys == before.products.Keys
    && after.products[id] == before.products[id].(isBooked := Some(flag))
    && (forall k | k in before.products && k != id :: after.products[k] == before.products[k])
    && after.users == before.users
    && after.nextProductId == before.nextProductId
    && after.nextUserId == before.nextUserId
  }

  /** The shared shape of booking and unbooking: existence (404), then the
      current flag (409), then the write. The conflict test is the source's
      identity test (`is True` / `is False`), so a NULL flag never conflicts. */
  function SetBooking(s: Store, id: int, target: bool, connected: bool): (h: Handled)
    ensures h.reply.status == SERVER_ERROR <==> !connected
    ensures h.reply.status == NOT_FOUND <==> connected && id !in s.products
    ensures h.reply.status == CONFLICT <==>
      connected && id in s.products && s.products[id].isBooked == Some(target)
    ensures h.reply.status == OK <==>
      connected && id in s.products && s.products[id].isBooked != Some(target)
    ensures h.reply.status != OK ==> h.store == s
    ensures h.reply.status == OK ==> id in s.products && OnlyFlagChanged(s, h.store, id, target)
  {
    if !connected then Handled(Fail(SERVER_ERROR, DbUnavailable), s)
    else if id !in s.products then Handled(Fail(NOT_FOUND, ProductNotFound), s)
    else if s.products[id].isBooked == Some(target) then
      Handled(Fail(CONFLICT, if target then AlreadyBooked else NotBooked), s)
    else
      var p := s.products[id];
      Handled(Reply(OK, Message(if target then BookedOk(id) else UnbookedOk(id))),
              s.(products := s.products[id := p.(isBooked := Some(target))]))
  }

  /** `PUT /api/products/<id>/book`. */
  function Book(s: Store, id: int, connected: bool): (h: Handled)
    ensures h.reply.status == SERVER_ERROR <==> !connected
    ensures h.reply.status == NOT_FOUND <==> connected && id !in s.products
    ensures h.reply.status == CONFLICT <==>
      connected && id in s.products && s.products[id].isBooked == Some(true)
    ensures h.reply.status == OK <==>
      connected && id in s.products && s.products[id].isBooked != Some(true)
    ensures h.reply.status != OK ==> h.store == s
    ensures h.reply.status == OK ==> id in s.products && OnlyFlagChanged(s, h.store, id, true)
  {
    SetBooking(s, id, true, connected)
  }

  /** `PUT /api/products/<id>/unbook`. */
  function Unbook(s: Store, id: int, connected: bool): (h: Handled)
    ensures h.reply.status == SERVER_ERROR <==> !connected
    ensures h.reply.status == NOT_FOUND <==> connected && id !in s.products
    ensures h.reply.status == CONFLICT <==>
      connected && id in s.products && s.products[id].isBooked == Some(false)
    ensures h.reply.status == OK <==>
      connected && id in s.products && s.products[id].isBooked != Some(false)
    ensures h.reply.status != OK ==> h.store == s
    ensures h.reply.status == OK ==> id in s.products && OnlyFlagChanged(s, h.store, id, false)
  {
    SetBooking(s, id, false, connected)
  }

  /** `DELETE /api/products/<id>`: existence check, then a hard delete. */
  function Delete(s: Store, id: int, connected: bool): (h: Handled)
    ensures h.reply.status == SERVER_ERROR <==> !connected
    ensures h.reply.status == NOT_FOUND <==> connected && id !in s.products
    ensures h.reply.status == OK <==> connected && id in s.products
    ensures h.reply.status != OK ==> h.store == s
    ensures h.reply.status == OK ==>
      && h.store.products.Keys == s.products.Keys - {id}
      && (forall k | k in h.store.products :: h.store.products[k] == s.products[k])
      && h.store.users == s.users
      && h.store.nextProductId == s.nextProductId
      && h.store.nextUserId == s.nextUserId
  {
    if !connected then Handled(Fail(SERVER_ERROR, DbUnavailable), s)
    else if id !in s.products then Handled(Fail(NOT_FOUND, ProductNotFound), s)
    else Handled(Reply(OK, Message(ProductDeleted)), s.(products := s.products - {id}))
  }

  // ---- Properties relating several requests ----

  /** Booking twice: the first succeeds, the second is a conflict. */
  lemma BookTwice(s: Store, id: int)
    requires id in s.products && s.products[id].isBooked != Some(true)
    ensures Book(s, id, true).reply.status == OK
    ensures Book(Book(s, id, true).store, id, true).reply.status == CONFLICT
  {
  }

  /** Booking an unbooked product and then unbooking it restores the
      database exactly. */
  lemma BookThenUnbookRestores(s: Store, id: int)
    requires id in s.products && s.products[id].isBooked == Some(false)
    ensures Book(s, id, true).reply.status == OK
    ensures Unbook(Book(s, id, true).store, id, true).reply.status == OK
    ensures Unbook(Book(s, id, true).store, id, true).store == s
  {
  }

  /** From a booked product, unbook, book and unbook all succeed. */
  lemma UnbookBookUnbook(s: Store, id: int)
    requires id in s.products && s.products[id].isBooked == Some(true)
    ensures
      var h1 := Unbook(s, id, true);
      var h2 := Book(h1.store, id, true);
      var h3 := Unbook(h2.store, id, true);
      h1.reply.status == OK && h2.reply.status == OK && h3.reply.status == OK
  {
  }

  /** Unbooking a product that is not booked is a conflict. */
  lemma UnbookUnbooked(s: Store, id: int)
    requires id in s.products && s.products[id].isBooked == Some(false)
    ensures Unbook(s, id, true).reply == Fail(CONFLICT, NotBooked)
    ensures Unbook(s, id, true).store == s
  {
  }

  /** A NULL flag passes both identity tests: booking and unbooking it both
      succeed, and neither restores the NULL. */
  lemma NullFlagPassesBothChecks(s: Store, id: int)
    requires id in s.products && s.products[id].isBooked == None
    ensures Book(s, id, true).reply.status == OK
    ensures Unbook(s, id, true).reply.status == OK
    ensures Unbook(Book(s, id, true).store, id, true).store != s
  {
  }

  /** After a successful delete, the listing no longer has the product and
      still has every other one. */
  lemma DeleteThenList(s: Store, id: int)
    requires id in s.products
    ensures
      var items := GetProducts(Delete(s, id, true).store, true).body.items;
      && (forall i | 0 <= i < |items| :: items[i].id != id)
      && (forall k | k in s.products && k != id :: exists i | 0 <= i < |items| :: items[i].id == k)
  {
  }

  /** On a valid database, a created product takes an id no row had, adds
      exactly one row, and is listed last. */
  lemma {:induction false} AddProductFresh(s: Store, form: ProductForm)
    requires Valid(s)
    requires Truthy(form.name) && AcceptablePrice(form.price)
    ensures
      var h := AddProduct(s, form, true);
      && s.nextProductId !in s.products
      && |h.store.products| == |s.products| + 1
      && var items := GetProducts(h.store, true).body.items;
         |items| > 0 && items[|items| - 1].id == s.nextProductId
  {
    var h := AddProduct(s, form, true);
    var id := s.nextProductId;
    assert id !in s.products;
    assert h.store.products.Keys == s.products.Keys + {id};
    assert |h.store.products.Keys| == |s.products.Keys| + 1;
    assert forall k | k in h.store.products :: k <= id by {
      forall k | k in h.store.products ensures k <= id {
        if k != id {
          assert k in s.products;
        }
      }
    }
    var items := GetProducts(h.store, true).body.items;
    CatalogEndsWithMax(items, h.store.products, id);
  }

  // ---- The database invariant ----

  lemma AddProductPreservesValid(s: Store, form: ProductForm, connected: bool)
    requires Valid(s)
    ensures Valid(AddProduct(s, form, connected).store)
  {
  }

  lemma SetBookingPreservesValid(s: Store, id: int, target: bool, connected: bool)
    requires Valid(s)
    ensures Valid(SetBooking(s, id, target, connected).store)
  {
  }

  lemma DeletePreservesValid(s: Store, id: int, connected: bool)
    requires Valid(s)
    ensures Valid(Delete(s, id, connected).store)
  {
  }
}

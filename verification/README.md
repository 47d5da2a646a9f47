# Lombard backend: a verified model of the request handlers

The backend of the pawnshop catalogue (`backend/app.py`) is a Flask
application over two PostgreSQL tables, `products` and `users`. It serves
registration and login, the product catalogue (list, add, delete), booking
and unbooking a product, a user's profile, and a PDF report of the booked
products.

This project models each of those handlers as a pure Dafny function from
the database and the request fields to a reply (a status code and a
payload) and, for the handlers that write, the database after the request.

- `wrappers.dfy`, module `Wrappers`: the `Option` type.
- `ordering.dfy`, module `Ordering`: the sorted enumeration of a set of ids
  (`ORDER BY id`) and the code-point order on strings (`ORDER BY name`).
- `schema.dfy`, module `Schema`:
  - the two tables, held as maps keyed by `id`;
  - the next value of each table's id sequence;
  - `Valid`, the invariant every reachable database keeps.
- `api.dfy`, module `Api`:
  - the status codes and the reply messages;
  - the reply payloads;
  - Python truthiness of request fields, where a missing field and `""`
    are both "missing".
- `products.dfy`, module `Products`: `get_products`, `add_product`,
  `book_product`, `unbook_product` and `delete_product`.
- `users.dfy`, module `Users`: `register`, `login` and `get_user_data`,
  plus how a unique violation is classified from PostgreSQL's error text.
- `report.dfy`, module `Report`: the data part of `generate_booked_pdf`:
  - which products are selected, and in which order;
  - the header row and one row per selected product.
- `routes.dfy`, module `Routes`:
  - every endpoint behind one `Dispatch`;
  - `Run`, which serves a sequence of requests;
  - the proof that every reachable database is valid.

Some things are parameters rather than modelled behaviour:
- Whether `get_db_connection()` returns a connection is the `connected`
  argument. When it is false, the handler answers 500. Request validation
  that the source runs before connecting is still checked first.
- bcrypt is a foreign call. `Register` receives the hash bcrypt produced.
  `Login` receives bcrypt's password check as a function `verify`.
- The `is_booked` column is nullable, so it is an `Option<bool>`. Booking
  conflicts only on `Some(true)` and unbooking only on `Some(false)`, as the
  source's `is True` / `is False` tests do. A NULL flag therefore passes
  both tests.
- Ids come from the store's two sequence counters. A failed user INSERT
  still uses up a sequence value, as a PostgreSQL sequence does. The users
  table itself is unchanged in that case.

## Model

| member | source | states |
|---|---|---|
| Products.GetProducts | backend/app.py:184-209 | 500 without a connection; otherwise 200 with a list that is the whole products table, each row as stored, in strictly ascending id order |
| Products.Catalog | backend/app.py:194-207 | the listing has one entry per row, ids strictly ascending, every entry equal to its stored row, every row present |
| Products.CatalogUnique | backend/app.py:194 | two listings that are both complete and ordered by id are equal, so `ORDER BY id` determines the answer |
| Products.AddProduct | backend/app.py:222-261 | 400 exactly when the name is missing or empty, the price is None, not numeric, or negative; a price of 0 is accepted; a price float() cannot convert gives 500; after validation, no connection gives 500; 201 exactly when valid and connected; the database is unchanged unless 201; on 201, one row is added under the sequence's next id with `is_booked` false and an empty image URL stored as NULL, the reply carries that id, and nothing else changes |
| Products.AddProductFresh | backend/app.py:250-261 | on a valid database, a created product's id was not in use, the table grows by exactly one row, and the new product is listed last |
| Products.SetBooking | backend/app.py:288-341 | the shared shape of book and unbook: 404 exactly when the id is absent, 409 exactly when the flag already has the target value, 200 otherwise; the database is unchanged unless 200; on 200 only that product's flag changes |
| Products.Book | backend/app.py:278-302 | 500 exactly when the connection fails; 404 for an absent id, 409 exactly when already booked (`is True`), else 200 with only that product's flag set to true; unchanged database on every error |
| Products.Unbook | backend/app.py:317-341 | 500 exactly when the connection fails; 404 for an absent id, 409 exactly when the flag is false (`is False`), else 200 with only that product's flag set to false; unchanged database on every error |
| Products.BookTwice | backend/app.py:288-302 | booking an unbooked product twice gives 200, then 409 |
| Products.BookThenUnbookRestores | backend/app.py:288-341 | booking an unbooked product and then unbooking it both succeed and restore the database exactly |
| Products.UnbookBookUnbook | backend/app.py:288-341 | from a booked product, unbook, book and unbook all succeed |
| Products.UnbookUnbooked | backend/app.py:327-334 | unbooking a product whose flag is false is a 409 that changes nothing |
| Products.NullFlagPassesBothChecks | backend/app.py:294-337 | a NULL flag can be booked and can be unbooked, and book then unbook does not restore the NULL |
| Products.Delete | backend/app.py:390-415 | 404 exactly when the id is absent, with the database unchanged; otherwise 200, the id is gone, and every other product, the users and the sequences are untouched |
| Products.DeleteThenList | backend/app.py:403-415 | after a delete, the product listing no longer shows the id and still shows every other product |
| Products.AddProductPreservesValid | backend/app.py:233-261 | adding a product keeps ids fresh and unique and prices non-negative |
| Products.SetBookingPreservesValid | backend/app.py:288-341 | booking and unbooking keep the database invariant |
| Products.DeletePreservesValid | backend/app.py:403-415 | deleting keeps the database invariant |
| Users.ClassifyUniqueViolation | backend/app.py:115-127 | on the lower-cased error text: "email" anywhere gives the email message, otherwise "username" gives the username message, otherwise the generic conflict message; each outcome holds exactly in its case |
| Users.ClassifiedAsEmail | backend/app.py:120-122 | any error text containing "email" is classified as a taken email, because "email" is looked for first |
| Users.EmailViolationClassified | backend/app.py:115-122 | a violation of the email constraint is reported as a taken email, whatever the email value is |
| Users.UsernameWithEmailClassifiedAsEmail | backend/app.py:120-124 | a violation of the username constraint whose username contains "email" is reported as a taken email, not a taken username |
| Users.InsertUser | backend/app.py:99-113 | the INSERT succeeds exactly when neither the username nor the email is in use; a rejection caused by the email carries the email constraint's error text; a rejection leaves the users table unchanged; success stores the user under the sequence's next id; the sequence advances either way |
| Users.Register | backend/app.py:63-139 | checks in order: missing login or password gives 400, then a missing email gives 400, then no connection gives 500, then a username in use gives 409, then a duplicate email gives the 409 email message; 201 exactly when complete, connected and both username and email are new; only 201 changes the users table, adding one user with role 'user', the given hash and the form's fields; products are never touched |
| Users.RegisterPreservesValid | backend/app.py:99-113 | registration keeps usernames and emails unique and ids fresh |
| Users.FindUser | backend/app.py:159-160 | the lookup finds a user with that username exactly when one exists |
| Users.Login | backend/app.py:141-181 | 400 exactly when a field is missing or empty; after that, 500 exactly when there is no connection; an unknown username gives the same 401 as a wrong password; 200 only with the id and role of a user with that username whose hash the password checks against |
| Users.LoginSucceedsIff | backend/app.py:159-169 | on a valid database, login succeeds exactly when some user has that username and the password checks against that user's hash |
| Users.UnknownUserLooksLikeWrongPassword | backend/app.py:166-174 | an unknown username and a known one with a wrong password get identical replies |
| Users.GetUserData | backend/app.py:356-377 | 404 exactly when the id is absent; otherwise 200 with that user's username, full name, phone number and email |
| Users.ProfileHidesSecrets | backend/app.py:366-377 | the profile reply does not depend on the password hash or the role |
| Users.RegisterTwice | backend/app.py:89-113 | registering the same form twice gives 201, then the 409 username message |
| Users.RegisterDuplicateEmail | backend/app.py:99-122 | a new username with an email already in use is rejected by the constraint, reported as a taken email, and the users table is unchanged |
| Users.RegisterLoginScenario | backend/app.py:63-174 | register, register again, log in with a wrong password, log in with the right one: 201, 409, 401, then 200 with role 'user' |
| Users.RegisterThenProfile | backend/app.py:366-377 | after a registration, the new user's profile is exactly the form's username, full name, phone number and email |
| Report.BookedRows | backend/app.py:452 | a product is selected exactly when its flag is true; a NULL flag does not select it |
| Report.InsertByName | backend/app.py:452 | inserting into a name-sorted list keeps it sorted and adds exactly that element |
| Report.SortByName | backend/app.py:452 | the result is sorted by name and is a permutation of the input |
| Report.BookedByName | backend/app.py:452-453 | the selection is sorted by name; it holds exactly the booked products, as stored, one entry per booked product |
| Report.NoneSelectedIffNoneBooked | backend/app.py:455-458 | the selection is empty exactly when no product is booked |
| Report.TableData | backend/app.py:494-502 | the table has one more row than there are items: first the header ('Название', 'Цена (руб.)'), then for each item in order a row with its name and its price, or 'N/A' when the price is NULL |
| Report.SelectionListsEachOnce | backend/app.py:452-453 | a list of booked products that has as many entries as there are booked products and contains every one of them repeats no product, so each booked product appears exactly once |
| Report.TableDescribesBooked | backend/app.py:494-502 | the table is exactly the table of a selection of the booked products: sorted by name, one entry per booked product, each as stored, every booked product present |
| Report.GenerateBookedReport | backend/app.py:445-502 | 500 without a connection; 404 exactly when no product is booked; otherwise 200 with exactly the table of a name-sorted selection of the booked products: one entry per booked product, each as stored, every booked product present (so none repeated, by Report.SelectionListsEachOnce) |
| Report.BookThenReported | backend/app.py:298-502 | a product that was just booked has its row in the report |
| Report.UnbookThenNotReported | backend/app.py:337-452 | a product that was just unbooked is not selected for the report |
| Routes.Dispatch | backend/app.py:63-431 | every endpoint answers one of the seven status codes above; reads (login, list, profile, report) never change the database; only registration touches the users table; registration never touches the products table; without a connection nothing changes |
| Routes.DispatchPreservesValid | backend/app.py:63-431 | every request keeps the database invariant |
| Routes.Run | backend/app.py:63-431 | a sequence of reads leaves the database as it was; without registrations the users table is unchanged; without product writes the products table is unchanged |
| Routes.RunPreservesValid | backend/app.py:63-431 | any sequence of requests from a valid database leaves it valid |
| Routes.ReachableValid | backend/app.py:63-431 | every database reached from empty tables is valid: fresh unique ids, unique usernames and emails, non-negative prices |

## Left out

- Database plumbing: connections, cursors, commit, rollback and close are
  not modelled. A failed connection is the `connected` parameter.
- Database errors other than a failed connection are not modelled. In the
  source, a `psycopg2.Error` in the middle of a handler gives a 500.
- Concurrency: the race between two book or unbook requests is not
  modelled. Neither is the race between two registrations, where the
  username pre-check passes for both. Each request runs alone against the
  database.
- bcrypt is a foreign call. The hash is a parameter of `Register`, and the
  check is the `verify` parameter of `Login`.
- Prices are exact reals. `float(price)` on the request is modelled only by
  its outcome, so rounding, NaN and infinity are not modelled.
- The Decimal-to-float conversion in `get_products` is not modelled, and
  neither is the text rendering `str(price)` in the report. The report's
  price cell holds the value.
- Products.AddProduct: the name is modelled as a string. The source also
  accepts any other truthy JSON value there.
- Products.AddProduct: a JSON `true` price counts as the number 1, as
  `float(True)` does in Python. The model does not separate it from other
  numbers.
- Request bodies that are not JSON objects, and the handlers' generic
  `Exception` branches, are not modelled. The one exception is a price that
  `float()` cannot convert, which is modelled.
- Users.ClassifyUniqueViolation: `str.lower()` is modelled for ASCII
  letters only. The error text is assumed to be PostgreSQL's, with the
  default constraint names `users_username_key` and `users_email_key`.
- Users.FindUser: when two users share a username, the source takes
  whichever row the database returns first. The model takes the smallest
  id. A valid database has no such pair.
- Report.BookedByName: `ORDER BY name` is modelled as code-point
  lexicographic order, not the database's collation. Rows with equal names
  keep ascending id order. SQL leaves that order unspecified.
- PDF rendering is not modelled: font registration, layout, the title, the
  generation timestamp, the file name and `send_file`. The report's 500 for
  a rendering failure is not modelled either.
- The `index()` route, Flask, CORS and environment loading are not
  modelled.
- `backend/hash_passwords.py`, `backend/render_setup.py`,
  `backend/create_conftest.py` and the Vue front end are not part of this
  model.
- A rejected registration still uses up a value of the user id sequence,
  because PostgreSQL does not roll sequences back. The users table itself
  is unchanged.

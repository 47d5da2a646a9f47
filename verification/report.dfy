/** The data part of `generate_booked_pdf` in backend/app.py: which products
    the report lists, in which order, and the rows of its table. Rendering
    the PDF is not modelled. */
module Report {
  import opened Wrappers
  import opened Ordering
  import opened Schema
  import opened Api
  import opened Products

  /** `WHERE is_booked = TRUE`: a NULL flag does not select the product. */
  predicate Booked(p: Product) {
    p.isBooked == Some(true)
  }

  /** The booked rows of the products table. */
  function BookedRows(products: map<int, Product>): (m: map<int, Product>)
    ensures m.Keys <= products.Keys
    ensures forall id | id in products :: id in m <==> Booked(products[id])
    ensures forall id | id in m :: m[id] == products[id]
  {
    map id | id in products && Booked(products[id]) :: products[id]
  }

  predicate NameLe(a: Listing, b: Listing) {
    LexLe(a.product.name, b.product.name)
  }

  /** Ordered by name ascending. */
  predicate SortedByName(s: seq<Listing>) {
    forall i, j | 0 <= i < j < |s| :: NameLe(s[i], s[j])
  }

  /** Puts `x` before the first element whose name is not smaller. */
  function InsertByName(x: Listing, s: seq<Listing>): (r: seq<Listing>)
    requires SortedByName(s)
    ensures SortedByName(r)
    ensures multiset(r) == multiset(s) + multiset{x}
    decreases |s|
  {
    if s == [] then [x]
    else if NameLe(x, s[0]) then
      assert forall j | 0 <= j < |s| :: NameLe(x, s[j]) by {
        forall j | 0 <= j < |s| ensures NameLe(x, s[j]) {
          if j > 0 {
            LexLeTransitive(x.product.name, s[0].product.name, s[j].product.name);
          }
        }
      }
      [x] + s
    else
      LexLeTotal(x.product.name, s[0].product.name);
      var rest := InsertByName(x, s[1..]);
      assert forall j | 0 <= j < |rest| :: NameLe(s[0], rest[j]) by {
        forall j | 0 <= j < |rest| ensures NameLe(s[0], rest[j]) {
          assert rest[j] in multiset(rest);
          if rest[j] != x {
            assert rest[j] in multiset(s[1..]);
            var k :| 0 <= k < |s[1..]| && s[1..][k] == rest[j];
            assert s[k + 1] == rest[j];
          }
        }
      }
      assert s == [s[0]] + s[1..];
      [s[0]] + rest
  }

  /** Insertion sort by name. Equal names keep their input order. */
  function SortByName(s: seq<Listing>): (r: seq<Listing>)
    ensures SortedByName(r)
    ensures multiset(r) == multiset(s)
  {
    if s == [] then []
    else
      assert s == [s[0]] + s[1..];
      InsertByName(s[0], SortByName(s[1..]))
  }

  /** Sorting keeps the elements and their number. */
  lemma SortKeepsElements(s: seq<Listing>)
    ensures |SortByName(s)| == |s|
    ensures forall x :: x in SortByName(s) <==> x in s
  {
    var r := SortByName(s);
    assert |r| == |multiset(r)| == |multiset(s)| == |s|;
    forall x ensures x in r <==> x in s {
      assert x in r <==> x in multiset(r);
      assert x in s <==> x in multiset(s);
    }
  }

  /** `SELECT id, name, price FROM products WHERE is_booked = TRUE ORDER BY name`.
      The rows come from the table in id order and are then sorted by name,
      so rows with equal names stay in id order. */
  function BookedByName(products: map<int, Product>): (r: seq<Listing>)
    ensures SortedByName(r)
    ensures |r| == |BookedRows(products)|
    ensures forall i | 0 <= i < |r| ::
      r[i].id in products && Booked(products[r[i].id]) && r[i].product == products[r[i].id]
    ensures forall id | id in products && Booked(products[id]) :: Listing(id, products[id]) in r
  {
    var items := Catalog(BookedRows(products));
    SelectionSize(products);
    SelectionOnlyBooked(products);
    SelectionAllBooked(products);
    SortByName(items)
  }

  lemma SelectionSize(products: map<int, Product>)
    ensures |SortByName(Catalog(BookedRows(products)))| == |BookedRows(products)|
  {
    SortKeepsElements(Catalog(BookedRows(products)));
  }

  lemma SelectionOnlyBooked(products: map<int, Product>)
    ensures var r := SortByName(Catalog(BookedRows(products)));
      forall i | 0 <= i < |r| ::
        r[i].id in products && Booked(products[r[i].id]) && r[i].product == products[r[i].id]
  {
    var items := Catalog(BookedRows(products));
    var r := SortByName(items);
    SortKeepsElements(items);
    forall i | 0 <= i < |r|
      ensures r[i].id in products && Booked(products[r[i].id]) && r[i].product == products[r[i].id]
    {
      assert r[i] in items;
    }
  }

  lemma SelectionAllBooked(products: map<int, Product>)
    ensures forall id | id in products && Booked(products[id]) ::
      Listing(id, products[id]) in SortByName(Catalog(BookedRows(products)))
  {
    var items := Catalog(BookedRows(products));
    SortKeepsElements(items);
    forall id | id in products && Booked(products[id])
      ensures Listing(id, products[id]) in SortByName(items)
    {
      var i :| 0 <= i < |items| && items[i].id == id;
      assert items[i] == Listing(id, products[id]);
    }
  }

  /** The header row of the report table. */
  const Header: Row := Row(Text("Название"), Text("Цена (руб.)"))

  /** `str(price)`, or 'N/A' for a NULL price. */
  function PriceCell(price: Option<real>): Cell {
    match price
    case Some(v) => Amount(v)
    case None => Text("N/A")
  }

  /** One body row: the name and the price cell (the id is not shown). */
  function RowOf(x: Listing): Row {
    Row(Text(x.product.name), PriceCell(x.product.price))
  }

  /** The table data: the header row, then one row per listed product. */
  function TableData(items: seq<Listing>): (rows: seq<Row>)
    ensures |rows| == |items| + 1
    ensures rows[0] == Row(Text("Название"), Text("Цена (руб.)"))
    ensures forall i | 0 <= i < |items| :: rows[i + 1].name == Text(items[i].product.name)
    ensures forall i | 0 <= i < |items| ::
      items[i].product.price.Some? ==> rows[i + 1].price == Amount(items[i].product.price.value)
    ensures forall i | 0 <= i < |items| ::
      items[i].product.price.None? ==> rows[i + 1].price == Text("N/A")
    ensures forall i | 0 <= i < |items| :: rows[i + 1] == RowOf(items[i])
  {
    [Header] + seq(|items|, i requires 0 <= i < |items| => RowOf(items[i]))
  }

  /** Some product is booked. */
  predicate AnyBooked(products: map<int, Product>) {
    exists id | id in products :: Booked(products[id])
  }

  /** `items` lists the booked products, each as stored, sorted by name:
      as many entries as booked products, each entry a booked product, and
      every booked product present. Since the entries of distinct products
      differ, every booked product is listed exactly once. */
  predicate IsBookedSelection(items: seq<Listing>, products: map<int, Product>) {
    && SortedByName(items)
    && |items| == |BookedRows(products)|
    && (forall i | 0 <= i < |items| ::
          items[i].id in products && Booked(products[items[i].id]) && items[i].product == products[items[i].id])
    && (forall id | id in products && Booked(products[id]) :: Listing(id, products[id]) in items)
  }

  /** A selection lists no product twice, so with every booked product
      present it lists each booked product exactly once. */
  lemma SelectionListsEachOnce(items: seq<Listing>, products: map<int, Product>)
    requires IsBookedSelection(items, products)
    ensures forall i, j | 0 <= i < j < |items| :: items[i].id != items[j].id
  {
    var ids := IdsOf(items);
    var booked := BookedRows(products);
    assert (set x | x in ids) == booked.Keys by {
      forall x ensures x in ids <==> x in booked.Keys {
        if x in ids {
          var i :| 0 <= i < |ids| && ids[i] == x;
          assert items[i].id == x;
        }
        if x in booked.Keys {
          var i :| 0 <= i < |items| && items[i] == Listing(x, products[x]);
          assert ids[i] == x;
        }
      }
    }
    assert |booked.Keys| == |booked|;
    FullCountDistinct(ids);
    forall i, j | 0 <= i < j < |items| ensures items[i].id != items[j].id {
      assert ids[i] == items[i].id && ids[j] == items[j].id;
    }
  }

  /** `rows` is the report table for `products`: the header, then the row
      of each entry of a selection of the booked products sorted by name. */
  ghost predicate DescribesBooked(rows: seq<Row>, products: map<int, Product>) {
    exists items | IsBookedSelection(items, products) :: rows == TableData(items)
  }

  /** The selection is empty exactly when no product is booked. */
  lemma NoneSelectedIffNoneBooked(products: map<int, Product>)
    ensures |BookedByName(products)| == 0 <==> !AnyBooked(products)
  {
  }

  /** The table built from the selection describes the booked products. */
  lemma TableDescribesBooked(products: map<int, Product>)
    ensures DescribesBooked(TableData(BookedByName(products)), products)
  {
    assert IsBookedSelection(BookedByName(products), products);
  }

  /** `GET /api/generate-booked-pdf`, up to the table data: 404 when nothing
      is booked, otherwise the header row and one row per booked product,
      sorted by name. */
  function GenerateBookedReport(s: Store, connected: bool): (r: Reply)
    ensures !connected ==> r == Fail(SERVER_ERROR, DbUnavailable)
    ensures connected && !AnyBooked(s.products) ==> r == Fail(NOT_FOUND, NoBookedProducts)
    ensures connected && AnyBooked(s.products) ==>
      r.status == OK && r.body.BookedTable? && DescribesBooked(r.body.rows, s.products)
  {
    if !connected then Fail(SERVER_ERROR, DbUnavailable)
    else
      var items := BookedByName(s.products);
      if |items| == 0 then
        NoneSelectedIffNoneBooked(s.products);
        Fail(NOT_FOUND, NoBookedProducts)
      else
        NoneSelectedIffNoneBooked(s.products);
        TableDescribesBooked(s.products);
        Reply(OK, BookedTable(TableData(items)))
  }

  /** A product that was just booked appears in the report. */
  lemma BookThenReported(s: Store, id: int)
    requires id in s.products && s.products[id].isBooked != Some(true)
    ensures
      var after := Book(s, id, true).store;
      var r := GenerateBookedReport(after, true);
      && r.status == OK
      && exists i | 1 <= i < |r.body.rows| :: r.body.rows[i] == RowOf(Listing(id, after.products[id]))
  {
  }

  /** A product that was just unbooked is not selected for the report. */
  lemma UnbookThenNotReported(s: Store, id: int)
    requires id in s.products && s.products[id].isBooked != Some(false)
    ensures
      var items := BookedByName(Unbook(s, id, true).store.products);
      forall i | 0 <= i < |items| :: items[i].id != id
  {
  }
}

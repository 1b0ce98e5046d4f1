/**
 Paging through the catalogue by row id (connectors/php/ncom-connector.php, list_products;
 the Node connector's example store does the same). A table is its rows in the order of
 the primary key; between two pages it may change in any way.
 */
module KeysetPaging {
  import opened Options

  datatype Product = Product(id: int, title: string, sku: string, categoryId: string, published: bool)

  type Table = seq<Product>

  /** SQL's LIKE '%search%' on one value: any predicate. */
  type Like = (string, string) -> bool

  datatype Query = Query(
    limit: int, cursor: Option<int>, search: string, category: string, anyStatus: bool, ids: seq<int>)

  datatype Clause =
    | IdIn(ids: seq<int>) | Published | TitleOrSku(search: string) | InCategory(category: string)
    | IdAbove(cursor: int)

  datatype Page = Page(products: seq<Product>, nextCursor: Option<int>)

  predicate Satisfies(row: Product, clause: Clause, like: Like) {
    match clause
    case IdIn(ids) => row.id in ids
    case Published => row.published
    case TitleOrSku(search) => like(row.title, search) || like(row.sku, search)
    case InCategory(category) => row.categoryId == category
    case IdAbove(cursor) => row.id > cursor
  }

  function ClampLimit(limit: int): (n: nat)
    ensures 1 <= n <= 100
  {
    if limit < 1 then 1 else if limit > 100 then 100 else limit
  }

  /** The filters that do not depend on the cursor. */
  function Filters(q: Query): seq<Clause> {
    if q.ids != [] then [IdIn(q.ids)]
    else
      (if q.anyStatus then [] else [Published])
      + (if q.search == "" then [] else [TitleOrSku(q.search)])
      + (if q.category == "" then [] else [InCategory(q.category)])
  }

  predicate Matches(row: Product, q: Query, like: Like) {
    forall clause :: clause in Filters(q) ==> Satisfies(row, clause, like)
  }

  /** A row the page may show: it matches, and lies above the cursor unless the query names ids. */
  predicate Wanted(row: Product, q: Query, like: Like) {
    Matches(row, q, like) && (q.ids == [] && q.cursor.Some? ==> row.id > q.cursor.value)
  }

  function WantedRows(table: Table, q: Query, like: Like): seq<Product> {
    Filter(table, row => Wanted(row, q, like))
  }

  function PageOf(table: Table, q: Query, like: Like): Page {
    var wanted := WantedRows(table, q, like);
    var n := ClampLimit(q.limit);
    if |wanted| > n then Page(wanted[..n], Some(wanted[n - 1].id)) else Page(wanted, None)
  }

  /** list_products: the where list grows clause by clause, the query takes one row more than the page. */
  method ListProducts(table: Table, q: Query, like: Like) returns (page: Page)
    ensures page == PageOf(table, q, like)
  {
    hide Selected, WantedRows;
    var limit := ClampLimit(q.limit);
    var where: seq<Clause> := [];
    if q.ids != [] {
      where := where + [IdIn(q.ids)];
    } else {
      if !q.anyStatus {
        where := where + [Published];
      }
      if q.search != "" {
        where := where + [TitleOrSku(q.search)];
      }
      if q.category != "" {
        where := where + [InCategory(q.category)];
      }
      if q.cursor.Some? {
        where := where + [IdAbove(q.cursor.value)];
      }
    }
    assert where == Filters(q) + if q.ids == [] && q.cursor.Some? then [IdAbove(q.cursor.value)] else [];
    var rows := Execute(table, where, limit + 1, like);
    SelectedAreWanted(table, where, q, like);
    var hasMore := |rows| > limit;
    var shown := if hasMore then rows[..limit] else rows;
    page := Page(shown, if hasMore then Some(shown[|shown| - 1].id) else None);
  }

  predicate All(row: Product, where: seq<Clause>, like: Like) {
    forall clause :: clause in where ==> Satisfies(row, clause, like)
  }

  /** The rows that satisfy every clause, in key order. */
  function Selected(table: Table, where: seq<Clause>, like: Like): seq<Product> {
    Filter(table, row => All(row, where, like))
  }

  /** SELECT ... WHERE all clauses ORDER BY id LIMIT n, on a table in key order. */
  method Execute(table: Table, where: seq<Clause>, n: nat, like: Like) returns (rows: seq<Product>)
    ensures var selected := Selected(table, where, like); rows == if |selected| > n then selected[..n] else selected
  {
    rows := [];
    var i := 0;
    while i < |table| && |rows| < n
      invariant 0 <= i <= |table| && |rows| <= n && rows == Selected(table[..i], where, like)
    {
      assert table[..i + 1][..i] == table[..i];
      if All(table[i], where, like) {
        rows := rows + [table[i]];
      }
      i := i + 1;
    }
    assert table == table[..i] + table[i..];
    FilterAppend(table[..i], table[i..], row => All(row, where, like));
  }

  lemma {:induction false} SelectedAreWanted(table: Table, where: seq<Clause>, q: Query, like: Like)
    requires where == Filters(q) + if q.ids == [] && q.cursor.Some? then [IdAbove(q.cursor.value)] else []
    ensures Selected(table, where, like) == WantedRows(table, q, like)
  {
    hide Filters, All, Wanted;
    forall row ensures All(row, where, like) <==> Wanted(row, q, like) {
      AllClauses(row, where, q, like);
    }
    FilterSame(table, row => All(row, where, like), row => Wanted(row, q, like));
  }

  lemma AllClauses(row: Product, where: seq<Clause>, q: Query, like: Like)
    requires where == Filters(q) + if q.ids == [] && q.cursor.Some? then [IdAbove(q.cursor.value)] else []
    ensures All(row, where, like) <==> Wanted(row, q, like)
  {
    if q.ids == [] && q.cursor.Some? {
      assert IdAbove(q.cursor.value) in where;
    }
    assert forall clause :: clause in Filters(q) ==> clause in where;
  }

  /** What matching means: the named ids, or everything the status, search and category filters leave. */
  lemma MatchesMeans(row: Product, q: Query, like: Like)
    ensures Matches(row, q, like) <==>
      if q.ids != [] then row.id in q.ids
      else
        && (q.anyStatus || row.published)
        && (q.search == "" || like(row.title, q.search) || like(row.sku, q.search))
        && (q.category == "" || row.categoryId == q.category)
  {
    var filters := Filters(q);
    assert q.ids != [] ==> IdIn(q.ids) in filters;
    assert q.ids == [] && !q.anyStatus ==> Published in filters;
    assert q.ids == [] && q.search != "" ==> TitleOrSku(q.search) in filters;
    assert q.ids == [] && q.category != "" ==> InCategory(q.category) in filters;
  }

  // ---- one page ----------------------------------------------------------

  ghost predicate Ascending(rows: seq<Product>) {
    forall i, j :: 0 <= i < j < |rows| ==> rows[i].id < rows[j].id
  }

  lemma {:induction false} FilterAscending(rows: seq<Product>, p: Product -> bool)
    requires Ascending(rows)
    ensures Ascending(Filter(rows, p))
  {
    if rows != [] {
      var n := |rows| - 1;
      FilterAscending(rows[..n], p);
      FilterMembers(rows[..n], p);
      forall i | 0 <= i < |Filter(rows[..n], p)| ensures Filter(rows[..n], p)[i].id < rows[n].id {
        assert Filter(rows[..n], p)[i] in rows[..n];
      }
    }
  }

  /**
   A page holds as many wanted rows as were asked for, or all there are, and a cursor only if there are more: the
   id of its last row. Fewer than one row counts as one, more than a hundred as a hundred.
   */
  lemma {:induction false} PageHolds(table: Table, q: Query, like: Like)
    ensures var page, wanted := PageOf(table, q, like), WantedRows(table, q, like);
      var asked := if q.limit < 1 then 1 else if q.limit > 100 then 100 else q.limit;
      && page.products <= wanted
      && |page.products| == (if |wanted| < asked then |wanted| else asked)
      && (page.nextCursor.Some? <==> |wanted| > asked)
      && (page.nextCursor.Some? ==> page.nextCursor.value == wanted[asked - 1].id)
  {
  }

  /**
   A page is ascending, shows only wanted rows, and leaves none of them out up to its cursor, or at all without one.
   */
  lemma {:induction false} PageIsGapless(table: Table, q: Query, like: Like)
    requires Ascending(table)
    ensures var page := PageOf(table, q, like);
      && Ascending(page.products)
      && (forall row :: row in page.products ==> row in table && Wanted(row, q, like))
      && |page.products| <= ClampLimit(q.limit)
      && (page.nextCursor.Some? ==>
            |page.products| == ClampLimit(q.limit) && page.nextCursor.value == page.products[|page.products| - 1].id)
      && (forall row :: row in table && Wanted(row, q, like)
            && (page.nextCursor.Some? ==> row.id <= page.nextCursor.value)
            ==> row in page.products)
  {
    var wanted := WantedRows(table, q, like);
    FilterAscending(table, row => Wanted(row, q, like));
    FilterMembers(table, row => Wanted(row, q, like));
    var page := PageOf(table, q, like);
    if page.nextCursor.Some? {
      var n := ClampLimit(q.limit);
      forall row | row in wanted ensures row.id <= page.nextCursor.value ==> row in page.products {
        UpTo(wanted, n, row);
      }
      forall row | row in page.products ensures row in wanted {
      }
    }
  }

  lemma UpTo(rows: seq<Product>, n: nat, row: Product)
    requires Ascending(rows) && row in rows && 0 < n <= |rows|
    ensures row.id <= rows[n - 1].id ==> row in rows[..n]
  {
    var i :| 0 <= i < |rows| && rows[i] == row;
    if i < n {
      assert rows[..n][i] == row;
    } else {
      assert rows[n - 1].id < rows[i].id;
    }
  }

  // ---- a scan over a changing table ----------------------------------------

  /** Following cursors: one table for every page asked for, until a page has no next cursor. */
  ghost predicate Finishes(tables: seq<Table>, q: Query, like: Like)
    decreases |tables|
  {
    tables != [] &&
    match PageOf(tables[0], q, like).nextCursor
    case None => |tables| == 1
    case Some(cursor) => Finishes(tables[1..], q.(cursor := Some(cursor)), like)
  }

  function Scan(tables: seq<Table>, q: Query, like: Like): seq<Product>
    requires Finishes(tables, q, like)
    decreases |tables|
  {
    var page := PageOf(tables[0], q, like);
    match page.nextCursor
    case None => page.products
    case Some(cursor) => page.products + Scan(tables[1..], q.(cursor := Some(cursor)), like)
  }

  ghost predicate Above(rows: seq<Product>, cursor: Option<int>) {
    cursor.Some? ==> forall row :: row in rows ==> row.id > cursor.value
  }

  /** Some row with the id matches. */
  ghost predicate Offers(table: Table, id: int, q: Query, like: Like) {
    exists row :: row in table && row.id == id && Matches(row, q, like)
  }

  lemma {:induction false} JoinAscending(a: seq<Product>, b: seq<Product>, cursor: int)
    requires Ascending(a) && Ascending(b) && Above(b, Some(cursor))
    requires forall row :: row in a ==> row.id <= cursor
    ensures Ascending(a + b)
  {
    var c := a + b;
    forall i, j | 0 <= i < j < |c| ensures c[i].id < c[j].id {
      if i < |a| <= j {
        assert c[i] in a && c[j] in b;
      }
    }
  }

  /**
   A finished scan shows ids in strictly ascending order, so never one twice, whatever happened to the table meanwhile.
   */
  lemma {:induction false} ScanAscends(tables: seq<Table>, q: Query, like: Like)
    requires q.ids == [] && Finishes(tables, q, like)
    requires forall i :: 0 <= i < |tables| ==> Ascending(tables[i])
    ensures Ascending(Scan(tables, q, like)) && Above(Scan(tables, q, like), q.cursor)
    decreases |tables|
  {
    var page := PageOf(tables[0], q, like);
    PageIsGapless(tables[0], q, like);
    if page.nextCursor.Some? {
      var c := page.nextCursor.value;
      ScanAscends(tables[1..], q.(cursor := Some(c)), like);
      forall row | row in page.products ensures row.id <= c {
        var i :| 0 <= i < |page.products| && page.products[i] == row;
        assert i < |page.products| - 1 ==> page.products[i].id < page.products[|page.products| - 1].id;
      }
      JoinAscending(page.products, Scan(tables[1..], q.(cursor := Some(c)), like), c);
      assert page.products[|page.products| - 1] in page.products;
    }
  }

  /** A product that matched in every table of the scan, above the cursor it started from, is shown. */
  lemma {:induction false} ScanMissesNothing(tables: seq<Table>, q: Query, like: Like, id: int)
    requires q.ids == [] && Finishes(tables, q, like)
    requires forall i :: 0 <= i < |tables| ==> Ascending(tables[i]) && Offers(tables[i], id, q, like)
    requires q.cursor.Some? ==> id > q.cursor.value
    ensures exists row :: row in Scan(tables, q, like) && row.id == id
    decreases |tables|
  {
    var page := PageOf(tables[0], q, like);
    PageIsGapless(tables[0], q, like);
    assert Offers(tables[0], id, q, like);
    var row :| row in tables[0] && row.id == id && Matches(row, q, like);
    if page.nextCursor.None? || id <= page.nextCursor.value {
      assert row in page.products;
      assert row in Scan(tables, q, like);
    } else {
      var next := q.(cursor := page.nextCursor);
      forall i | 0 <= i < |tables[1..]| ensures Offers(tables[1..][i], id, next, like) {
        assert Offers(tables[i + 1], id, q, like);
        var r :| r in tables[i + 1] && r.id == id && Matches(r, q, like);
        assert Matches(r, next, like);
      }
      ScanMissesNothing(tables[1..], next, like, id);
    }
  }

  /** The query that read page i: from the second on, its cursor is the one the page before handed out. */
  function QueryAt(tables: seq<Table>, q: Query, like: Like, i: nat): Query
    requires Finishes(tables, q, like) && i < |tables|
    decreases i
  {
    if i == 0 then q
    else QueryAt(tables[1..], q.(cursor := PageOf(tables[0], q, like).nextCursor), like, i - 1)
  }

  /** Every product shown stood on some page, and was in that page's table and matched when it was read. */
  lemma {:induction false} ScanShowsMatches(tables: seq<Table>, q: Query, like: Like, row: Product)
    requires Finishes(tables, q, like) && row in Scan(tables, q, like)
    requires forall i :: 0 <= i < |tables| ==> Ascending(tables[i])
    ensures exists i :: 0 <= i < |tables| && ShownAt(tables, q, like, i, row)
    decreases |tables|
  {
    var page := PageOf(tables[0], q, like);
    PageIsGapless(tables[0], q, like);
    if row in page.products {
      assert ShownAt(tables, q, like, 0, row);
    } else {
      var next := q.(cursor := page.nextCursor);
      ScanShowsMatches(tables[1..], next, like, row);
      var i :| 0 <= i < |tables[1..]| && ShownAt(tables[1..], next, like, i, row);
      assert QueryAt(tables, q, like, i + 1) == QueryAt(tables[1..], next, like, i);
      assert ShownAt(tables, q, like, i + 1, row);
    }
  }

  /** Page i shows the row, which its table holds and the query matches. */
  ghost predicate ShownAt(tables: seq<Table>, q: Query, like: Like, i: nat, row: Product)
    requires Finishes(tables, q, like) && i < |tables|
  {
    && row in PageOf(tables[i], QueryAt(tables, q, like, i), like).products
    && row in tables[i]
    && Matches(row, q, like)
  }

  // ---- a table at rest, and queries by id ----------------------------------

  function Repeated(table: Table, n: nat): (r: seq<Table>)
    ensures |r| == n
  {
    seq(n, _ => table)
  }

  /** On a table at rest every scan finishes, and shows exactly the wanted rows in order. */
  lemma {:induction false} ScanAtRest(table: Table, q: Query, like: Like) returns (pages: nat)
    requires q.ids == [] && Ascending(table)
    ensures Finishes(Repeated(table, pages), q, like)
    ensures Scan(Repeated(table, pages), q, like) == WantedRows(table, q, like)
    decreases |WantedRows(table, q, like)|
  {
    hide WantedRows;
    var wanted := WantedRows(table, q, like);
    var page := PageOf(table, q, like);
    if page.nextCursor.None? {
      pages := 1;
    } else {
      var next := q.(cursor := page.nextCursor);
      WantedBeyond(table, q, like, ClampLimit(q.limit) - 1);
      var rest := ScanAtRest(table, next, like);
      pages := rest + 1;
      assert Repeated(table, pages)[1..] == Repeated(table, rest);
    }
  }

  /** What is wanted beyond the k-th wanted row is the rest of what was wanted. */
  lemma {:induction false} WantedBeyond(table: Table, q: Query, like: Like, k: nat)
    requires q.ids == [] && Ascending(table) && k < |WantedRows(table, q, like)|
    ensures var wanted := WantedRows(table, q, like);
      WantedRows(table, q.(cursor := Some(wanted[k].id)), like) == wanted[k + 1..]
  {
    var wanted := WantedRows(table, q, like);
    var next := q.(cursor := Some(wanted[k].id));
    FilterAscending(table, row => Wanted(row, q, like));
    FilterMembers(table, row => Wanted(row, q, like));
    assert wanted[k] in wanted && Wanted(wanted[k], q, like);
    forall row ensures Wanted(row, next, like) <==> Wanted(row, q, like) && row.id > wanted[k].id {
      assert Matches(row, q, like) <==> Matches(row, next, like);
    }
    FilterBeyond(table, row => Wanted(row, q, like), row => Wanted(row, next, like), wanted[k].id);
    SplitAt(wanted, k);
  }

  function AboveId(id: int): Product -> bool {
    (row: Product) => row.id > id
  }

  /** Filtering by p and a bound on ids is filtering twice. */
  lemma {:induction false} FilterBeyond(rows: seq<Product>, p: Product -> bool, beyond: Product -> bool, id: int)
    requires forall row :: beyond(row) <==> p(row) && row.id > id
    ensures Filter(rows, beyond) == Filter(Filter(rows, p), AboveId(id))
  {
    if rows != [] {
      var n := |rows| - 1;
      FilterBeyond(rows[..n], p, beyond, id);
      if p(rows[n]) {
        FilterAppend(Filter(rows[..n], p), [rows[n]], AboveId(id));
        assert [rows[n]][..0] == [];
      } else {
        assert Filter(rows[..n], p) + [] == Filter(rows[..n], p);
      }
    }
  }

  /** In ascending rows, those above the k-th are the ones after it. */
  lemma {:induction false} SplitAt(rows: seq<Product>, k: nat)
    requires Ascending(rows) && k < |rows|
    ensures Filter(rows, AboveId(rows[k].id)) == rows[k + 1..]
  {
    var id := rows[k].id;
    assert rows == rows[..k + 1] + rows[k + 1..];
    FilterAppend(rows[..k + 1], rows[k + 1..], AboveId(id));
    FilterNone(rows[..k + 1], AboveId(id));
    FilterAll(rows[k + 1..], AboveId(id));
    assert [] + rows[k + 1..] == rows[k + 1..];
  }

  /**
   A query by ids ignores the cursor. Following cursors ends only at a table with no more matching rows than
   fit a page; as long as there are more, every page is the same one and the rest is never shown.
   */
  lemma {:induction false} IdQueryFinishes(tables: seq<Table>, q: Query, like: Like)
    requires q.ids != []
    ensures Finishes(tables, q, like) <==>
      && tables != []
      && |WantedRows(tables[|tables| - 1], q, like)| <= ClampLimit(q.limit)
      && forall i :: 0 <= i < |tables| - 1 ==> |WantedRows(tables[i], q, like)| > ClampLimit(q.limit)
    decreases |tables|
  {
    if tables != [] {
      var page := PageOf(tables[0], q, like);
      if page.nextCursor.Some? && |tables| > 1 {
        var next := q.(cursor := page.nextCursor);
        IdQueryFinishes(tables[1..], next, like);
        forall i | 0 <= i < |tables| ensures WantedRows(tables[i], next, like) == WantedRows(tables[i], q, like) {
          SameWanted(tables[i], q, next, like);
        }
        assert tables[1..][|tables| - 2] == tables[|tables| - 1];
      }
    }
  }

  /** At rest a query by ids takes one page, or never ends. */
  lemma {:induction false} IdQueryAtRest(table: Table, q: Query, like: Like, n: nat)
    requires q.ids != []
    ensures Finishes(Repeated(table, n), q, like) <==> n == 1 && |WantedRows(table, q, like)| <= ClampLimit(q.limit)
  {
    IdQueryFinishes(Repeated(table, n), q, like);
    if n > 1 {
      assert Repeated(table, n)[0] == Repeated(table, n)[n - 1] == table;
    }
  }

  /** Two products asked for by id, one to a page, at rest: no number of pages finishes the scan. */
  lemma {:induction false} IdQueryLoops(like: Like, n: nat)
    ensures var table := [Product(1, "", "", "", true), Product(2, "", "", "", true)];
      !Finishes(Repeated(table, n), Query(1, None, "", "", false, [1, 2]), like)
  {
    var table := [Product(1, "", "", "", true), Product(2, "", "", "", true)];
    var q := Query(1, None, "", "", false, [1, 2]);
    IdQueryAtRest(table, q, like, n);
    forall row | row in table ensures Wanted(row, q, like) {
      MatchesMeans(row, q, like);
    }
    FilterAll(table, row => Wanted(row, q, like));
  }

  lemma {:induction false} SameWanted(table: Table, q: Query, next: Query, like: Like)
    requires q.ids != [] && next == q.(cursor := next.cursor)
    ensures WantedRows(table, next, like) == WantedRows(table, q, like)
  {
    if table != [] {
      SameWanted(table[..|table| - 1], q, next, like);
      assert Matches(table[|table| - 1], q, like) <==> Matches(table[|table| - 1], next, like);
    }
  }
}

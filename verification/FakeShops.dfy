/**
 The shop the end-to-end tests sell from (e2e/support/product-source.ts): products in the
 order they were added, stock changed in place, and a ledger of every reserve and release.
 */
module FakeShops {
  import opened Options
  import opened Stock

  datatype Variant = Variant(id: string, available: Option<int>, continues: bool)

  datatype Product = Product(id: string, variants: seq<Variant>)

  datatype Kind = Reserving | Releasing

  datatype Movement = Movement(kind: Kind, orderRef: string, lines: seq<Line>)

  // ---- the catalogue -----------------------------------------------------

  function FindVariant(variants: seq<Variant>, id: string): Option<Variant> {
    if variants == [] then None
    else if variants[0].id == id then Some(variants[0])
    else FindVariant(variants[1..], id)
  }

  /** variant(): the first one with the id, product by product. */
  function Find(products: seq<Product>, id: string): Option<Variant> {
    if products == [] then None
    else if FindVariant(products[0].variants, id).Some? then FindVariant(products[0].variants, id)
    else Find(products[1..], id)
  }

  /** The variant is in the product, and no variant before it has its id. */
  ghost predicate FirstVariant(variants: seq<Variant>, j: nat, variant: Variant) {
    j < |variants| && variants[j] == variant && forall k :: 0 <= k < j ==> variants[k].id != variant.id
  }

  lemma {:induction false} FindVariantMeans(variants: seq<Variant>, id: string)
    ensures match FindVariant(variants, id)
      case None => forall variant :: variant in variants ==> variant.id != id
      case Some(variant) => variant.id == id && exists j :: 0 <= j < |variants| && FirstVariant(variants, j, variant)
  {
    if variants != [] && variants[0].id != id {
      FindVariantMeans(variants[1..], id);
      if FindVariant(variants, id).Some? {
        var variant := FindVariant(variants, id).value;
        var j :| 0 <= j < |variants[1..]| && FirstVariant(variants[1..], j, variant);
        assert forall k :: 0 < k <= j ==> variants[k] == variants[1..][k - 1];
        assert FirstVariant(variants, j + 1, variant);
      } else {
        assert variants == [variants[0]] + variants[1..];
      }
    } else if variants != [] {
      assert FirstVariant(variants, 0, variants[0]);
    }
  }

  /** The first variant with the id in the first product that has one; none exactly when no product has one. */
  lemma {:induction false} FindMeans(products: seq<Product>, id: string)
    ensures match Find(products, id)
      case None => forall p, variant :: p in products && variant in p.variants ==> variant.id != id
      case Some(variant) => variant.id == id && exists i, j ::
        && 0 <= i < |products| && 0 <= j < |products[i].variants| && FirstVariant(products[i].variants, j, variant)
        && forall k, other :: 0 <= k < i && other in products[k].variants ==> other.id != id
  {
    if products != [] {
      FindVariantMeans(products[0].variants, id);
      if FindVariant(products[0].variants, id).None? {
        FindMeans(products[1..], id);
        if Find(products, id).Some? {
          var variant := Find(products, id).value;
          var i, j :|
            && 0 <= i < |products[1..]| && 0 <= j < |products[1..][i].variants|
            && FirstVariant(products[1..][i].variants, j, variant)
            && forall k, other :: 0 <= k < i && other in products[1..][k].variants ==> other.id != id;
          assert products[i + 1] == products[1..][i];
          assert FirstVariant(products[i + 1].variants, j, variant);
          assert forall k :: 0 < k <= i ==> products[k] == products[1..][k - 1];
        } else {
          assert products == [products[0]] + products[1..];
        }
      }
    }
  }

  /** availableFor(): nothing for an unknown variant or an uncounted one. */
  function Available(products: seq<Product>, id: string): Option<int> {
    match Find(products, id)
    case None => None
    case Some(variant) => variant.available
  }

  /** Map.set: a known id keeps its place, a new one goes to the end. */
  function Put(products: seq<Product>, product: Product): seq<Product> {
    if products == [] then [product]
    else if products[0].id == product.id then [product] + products[1..]
    else [products[0]] + Put(products[1..], product)
  }

  predicate FirstOf(products: seq<Product>, id: string, i: int) {
    0 <= i < |products| && products[i].id == id && forall j :: 0 <= j < i ==> products[j].id != id
  }

  lemma {:induction false} PutKnown(products: seq<Product>, product: Product, i: int)
    requires FirstOf(products, product.id, i)
    ensures Put(products, product) == products[i := product]
  {
    if i > 0 {
      PutKnown(products[1..], product, i - 1);
    }
  }

  lemma {:induction false} PutNew(products: seq<Product>, product: Product)
    requires forall p :: p in products ==> p.id != product.id
    ensures Put(products, product) == products + [product]
  {
    if products != [] {
      assert products[0] in products && forall p :: p in products[1..] ==> p in products;
      PutNew(products[1..], product);
      assert products == [products[0]] + products[1..];
    }
  }

  function AdjustVariant(variants: seq<Variant>, id: string, delta: int): seq<Variant> {
    if variants == [] then []
    else if variants[0].id == id then
      [if variants[0].available.None? then variants[0]
        else variants[0].(available := Some(variants[0].available.value + delta))]
      + variants[1..]
    else [variants[0]] + AdjustVariant(variants[1..], id, delta)
  }

  /** The catalogue after the found variant's stock moved, if it is counted. */
  function Adjust(products: seq<Product>, id: string, delta: int): seq<Product> {
    if products == [] then []
    else if FindVariant(products[0].variants, id).Some? then
      [products[0].(variants := AdjustVariant(products[0].variants, id, delta))] + products[1..]
    else [products[0]] + Adjust(products[1..], id, delta)
  }

  function Sign(kind: Kind): int {
    if kind.Reserving? then 1 else -1
  }

  function AdjustAll(products: seq<Product>, lines: seq<Line>, kind: Kind): seq<Product> {
    if lines == [] then products else
      var last := lines[|lines| - 1];
      Adjust(AdjustAll(products, lines[..|lines| - 1], kind), last.variantId, -Sign(kind) * last.quantity)
  }

  /** The line is more than the shop has of a counted variant that does not sell on. */
  predicate Short(products: seq<Product>, line: Line) {
    var variant := Find(products, line.variantId);
    && variant.Some? && variant.value.available.Some? && !variant.value.continues
    && variant.value.available.value < line.quantity
  }

  predicate FirstShort(products: seq<Product>, lines: seq<Line>, i: nat)
    requires i < |lines|
  {
    Short(products, lines[i]) && forall j :: 0 <= j < i ==> !Short(products, lines[j])
  }

  /** reservedFor(): what the ledger says is out. */
  function Reserved(movements: seq<Movement>, id: string): int {
    if movements == [] then 0 else
      var last := movements[|movements| - 1];
      Reserved(movements[..|movements| - 1], id) + Sign(last.kind) * Demand(last.lines, id)
  }

  class FakeShop {
    var products: seq<Product>
    var movements: seq<Movement>
    var reserveSucceeds: bool

    constructor ()
      ensures products == [] && movements == [] && reserveSucceeds
    {
      products, movements, reserveSucceeds := [], [], true;
    }

    method Add(product: Product)
      modifies this`products
      ensures forall i :: FirstOf(old(products), product.id, i) ==> products == old(products)[i := product]
      ensures (forall p :: p in old(products) ==> p.id != product.id) ==> products == old(products) + [product]
      ensures products == Put(old(products), product)
    {
      forall i | FirstOf(products, product.id, i) ensures Put(products, product) == products[i := product] {
        PutKnown(products, product, i);
      }
      if forall p :: p in products ==> p.id != product.id {
        PutNew(products, product);
      }
      products := Put(products, product);
    }

    method Move(lines: seq<Line>, kind: Kind)
      modifies this`products
      ensures products == AdjustAll(old(products), lines, kind)
    {
      for i := 0 to |lines|
        invariant products == AdjustAll(old(products), lines[..i], kind)
      {
        assert lines[..i + 1][..i] == lines[..i];
        products := Adjust(products, lines[i].variantId, -Sign(kind) * lines[i].quantity);
      }
      assert lines[..|lines|] == lines;
    }

    /** The reserve endpoint: everything is refused by the switch or the first short line, or everything is taken. */
    method Reserve(orderRef: string, lines: seq<Line>) returns (ok: bool, rejected: seq<string>)
      modifies this`products, this`movements
      ensures ok <==> reserveSucceeds && forall line :: line in lines ==> !Short(old(products), line)
      ensures ok ==> products == AdjustAll(old(products), lines, Reserving)
      ensures ok ==> movements == old(movements) + [Movement(Reserving, orderRef, lines)] && rejected == []
      ensures !ok ==> products == old(products) && movements == old(movements)
      ensures !reserveSucceeds ==> rejected == seq(|lines|, i requires 0 <= i < |lines| => lines[i].variantId)
      ensures !ok && reserveSucceeds ==>
        exists i :: 0 <= i < |lines| && rejected == [lines[i].variantId] && FirstShort(old(products), lines, i)
    {
      if !reserveSucceeds {
        return false, seq(|lines|, i requires 0 <= i < |lines| => lines[i].variantId);
      }
      for i := 0 to |lines|
        invariant forall j :: 0 <= j < i ==> !Short(products, lines[j])
      {
        if Short(products, lines[i]) {
          return false, [lines[i].variantId];
        }
      }
      Move(lines, Reserving);
      movements := movements + [Movement(Reserving, orderRef, lines)];
      return true, [];
    }

    method Release(orderRef: string, lines: seq<Line>)
      modifies this`products, this`movements
      ensures products == AdjustAll(old(products), lines, Releasing)
      ensures movements == old(movements) + [Movement(Releasing, orderRef, lines)]
    {
      Move(lines, Releasing);
      movements := movements + [Movement(Releasing, orderRef, lines)];
    }

    method ReservedFor(id: string) returns (total: int)
      ensures total == Reserved(movements, id)
    {
      total := 0;
      for i := 0 to |movements|
        invariant total == Reserved(movements[..i], id)
      {
        var movement := movements[i];
        ghost var before := total;
        for k := 0 to |movement.lines|
          invariant total == before + Sign(movement.kind) * Demand(movement.lines[..k], id)
        {
          var line := movement.lines[k];
          assert movement.lines[..k + 1][..k] == movement.lines[..k];
          if line.variantId == id {
            total := total + if movement.kind.Reserving? then line.quantity else -line.quantity;
          }
        }
        assert movement.lines[..|movement.lines|] == movement.lines;
        assert movements[..i + 1][..i] == movements[..i];
      }
      assert movements[..|movements|] == movements;
    }
  }

  // ---- stock and ledger --------------------------------------------------

  function Moved(variant: Option<Variant>, delta: int): Option<Variant> {
    match variant
    case None => None
    case Some(v) => if v.available.None? then variant else Some(v.(available := Some(v.available.value + delta)))
  }

  lemma {:induction false} FindAdjustedVariant(variants: seq<Variant>, id: string, delta: int, other: string)
    ensures FindVariant(AdjustVariant(variants, id, delta), other)
      == if other == id then Moved(FindVariant(variants, id), delta) else FindVariant(variants, other)
  {
    if variants != [] && variants[0].id != id {
      FindAdjustedVariant(variants[1..], id, delta, other);
      assert AdjustVariant(variants, id, delta)[1..] == AdjustVariant(variants[1..], id, delta);
    } else if variants != [] {
      assert AdjustVariant(variants, id, delta)[1..] == variants[1..];
    }
  }

  lemma {:induction false} FindAdjusted(products: seq<Product>, id: string, delta: int, other: string)
    ensures Find(Adjust(products, id, delta), other)
      == if other == id then Moved(Find(products, id), delta) else Find(products, other)
  {
    if products != [] {
      FindAdjustedVariant(products[0].variants, id, delta, other);
      if FindVariant(products[0].variants, id).Some? {
        assert Adjust(products, id, delta)[1..] == products[1..];
      } else {
        FindAdjusted(products[1..], id, delta, other);
        assert Adjust(products, id, delta)[1..] == Adjust(products[1..], id, delta);
      }
    }
  }

  lemma {:induction false} FindAfterLines(products: seq<Product>, lines: seq<Line>, kind: Kind, id: string)
    ensures Find(AdjustAll(products, lines, kind), id) == Moved(Find(products, id), -Sign(kind) * Demand(lines, id))
  {
    if lines != [] {
      var n := |lines| - 1;
      FindAfterLines(products, lines[..n], kind, id);
      FindAdjusted(AdjustAll(products, lines[..n], kind), lines[n].variantId, -Sign(kind) * lines[n].quantity, id);
    }
  }

  /** A line is short when taking it alone would leave a counted variant that does not sell on below zero. */
  lemma {:induction false} ShortMeans(products: seq<Product>, line: Line)
    ensures Short(products, line) <==>
      var after := Find(AdjustAll(products, [line], Reserving), line.variantId);
      after.Some? && !after.value.continues && after.value.available.Some? && after.value.available.value < 0
  {
    hide Find, AdjustAll;
    FindAfterLines(products, [line], Reserving, line.variantId);
    DemandOneMore([], line, line.variantId);
    assert [] + [line] == [line];
  }

  /** Catalogue and ledger, as the requests change them. */
  datatype Books = Books(products: seq<Product>, movements: seq<Movement>)

  datatype Request = Adding(product: Product) | Moving(kind: Kind, orderRef: string, lines: seq<Line>) | RefusedReserve

  function Handle(books: Books, request: Request): Books {
    match request
    case Adding(product) => books.(products := Put(books.products, product))
    case Moving(kind, orderRef, lines) =>
      Books(AdjustAll(books.products, lines, kind), books.movements + [Movement(kind, orderRef, lines)])
    case RefusedReserve => books
  }

  /** The place of the first product under the id, or the end. */
  function PlaceOf(products: seq<Product>, id: string): nat {
    if products == [] || products[0].id == id then 0 else 1 + PlaceOf(products[1..], id)
  }

  /** The place of the product whose variant Find takes, or the end. */
  function HolderOf(products: seq<Product>, id: string): nat {
    if products == [] || FindVariant(products[0].variants, id).Some? then 0 else 1 + HolderOf(products[1..], id)
  }

  /**
   Adding the product decides anew which variant is found under the id: it replaces the product that holds the
   variant, or it brings such a variant to a place before it, or to any place when no product holds one.
   */
  predicate Sets(products: seq<Product>, product: Product, id: string) {
    var place, holder := PlaceOf(products, product.id), HolderOf(products, id);
    && place <= holder
    && ((place == holder && holder < |products|) || FindVariant(product.variants, id).Some?)
  }

  lemma {:induction false} PutKeeps(products: seq<Product>, product: Product, id: string)
    requires !Sets(products, product, id)
    ensures Find(Put(products, product), id) == Find(products, id)
  {
    if products != [] && products[0].id != product.id && FindVariant(products[0].variants, id).None? {
      PutKeeps(products[1..], product, id);
      assert Put(products, product)[1..] == Put(products[1..], product);
    } else {
      assert products != [] && products[0].id == product.id ==> Put(products, product)[1..] == products[1..];
    }
  }

  predicate SetsVariant(books: Books, request: Request, id: string) {
    request.Adding? && Sets(books.products, request.product, id)
  }

  /** No request of the run decides anew which variant is found under the id. */
  predicate NeverSets(books: Books, requests: seq<Request>, id: string)
    decreases |requests|
  {
    requests == [] || (
      && !SetsVariant(books, requests[0], id)
      && NeverSets(Handle(books, requests[0]), requests[1..], id))
  }

  function HandleAll(books: Books, requests: seq<Request>): Books
    decreases |requests|
  {
    if requests == [] then books else HandleAll(Handle(books, requests[0]), requests[1..])
  }

  /** One request moves a counted variant's stock and its ledger by opposite amounts; without a count there is none. */
  lemma {:induction false} HandleBalances(books: Books, request: Request, id: string)
    requires !SetsVariant(books, request, id)
    ensures var books' := Handle(books, request);
      var stock, stock' := Available(books.products, id), Available(books'.products, id);
      && (stock'.Some? <==> stock.Some?)
      && (stock.Some? ==>
            stock'.value + Reserved(books'.movements, id) == stock.value + Reserved(books.movements, id))
  {
    hide Find, Put, Sets, AdjustAll, Reserved, Demand;
    match request {
      case Adding(product) => PutKeeps(books.products, product, id);
      case RefusedReserve =>
      case Moving(kind, orderRef, lines) =>
        FindAfterLines(books.products, lines, kind, id);
        ReservedOneMore(books.movements, Movement(kind, orderRef, lines), id);
    }
  }

  lemma {:induction false} ReservedOneMore(movements: seq<Movement>, movement: Movement, id: string)
    ensures Reserved(movements + [movement], id)
      == Reserved(movements, id) + Sign(movement.kind) * Demand(movement.lines, id)
  {
    assert (movements + [movement])[..|movements|] == movements;
  }

  lemma {:induction false} RunBalances(books: Books, requests: seq<Request>, id: string)
    requires NeverSets(books, requests, id)
    ensures var after := HandleAll(books, requests);
      var stock, stock' := Available(books.products, id), Available(after.products, id);
      && (stock'.Some? <==> stock.Some?)
      && (stock.Some? ==>
            stock'.value + Reserved(after.movements, id) == stock.value + Reserved(books.movements, id))
    decreases |requests|
  {
    hide Available, Reserved, Handle, SetsVariant;
    if requests != [] {
      HandleBalances(books, requests[0], id);
      RunBalances(Handle(books, requests[0]), requests[1..], id);
    }
  }

  /**
   Over every run after a variant was last set with a counted stock, what the shop says is left plus what
   the ledger says is out equals that stock, exactly when the ledger held nothing of the variant at the time.
   */
  lemma LedgerMatchesStock(books: Books, product: Product, stock: int, requests: seq<Request>, id: string)
    requires Available(Put(books.products, product), id) == Some(stock)
    requires NeverSets(Handle(books, Adding(product)), requests, id)
    ensures var after := HandleAll(books, [Adding(product)] + requests);
      && Available(after.products, id).Some?
      && (Available(after.products, id).value + Reserved(after.movements, id) == stock
          <==> Reserved(books.movements, id) == 0)
  {
    var all := [Adding(product)] + requests;
    assert all[1..] == requests;
    RunBalances(Handle(books, Adding(product)), requests, id);
  }

  /** The k-th request is the last of the run that sets the variant. */
  predicate LastSet(books: Books, requests: seq<Request>, k: nat, id: string)
    requires k < |requests|
  {
    && SetsVariant(HandleAll(books, requests[..k]), requests[k], id)
    && NeverSets(HandleAll(books, requests[..k + 1]), requests[k + 1..], id)
  }

  lemma {:induction false} LastSetExists(books: Books, requests: seq<Request>, id: string) returns (k: nat)
    requires !NeverSets(books, requests, id)
    ensures k < |requests| && LastSet(books, requests, k, id)
    decreases |requests|
  {
    hide Handle, SetsVariant;
    var next, rest := Handle(books, requests[0]), requests[1..];
    if NeverSets(next, rest, id) {
      k := 0;
      assert requests[..0] == [] && requests[..1][1..] == [] && requests[..1][0] == requests[0];
      assert HandleAll(books, requests[..1]) == next;
    } else {
      var later := LastSetExists(next, rest, id);
      k := later + 1;
      assert requests[..k][1..] == rest[..later] && requests[..k + 1][1..] == rest[..k];
      assert requests[k + 1..] == rest[k..];
    }
  }

  lemma {:induction false} HandleInTwo(books: Books, first: seq<Request>, second: seq<Request>)
    ensures HandleAll(books, first + second) == HandleAll(HandleAll(books, first), second)
    decreases |first|
  {
    if first == [] {
      assert first + second == second;
    } else {
      HandleInTwo(Handle(books, first[0]), first[1..], second);
      assert (first + second)[1..] == first[1..] + second;
    }
  }

  /**
   For any run whatever from the opening of the shop: a variant that is counted in the end was last set by some
   request, and stock plus ledger is the stock it was set to exactly when the ledger held nothing of it by then.
   */
  lemma {:induction false} LedgerOverRun(requests: seq<Request>, id: string) returns (k: nat)
    requires Available(HandleAll(Books([], []), requests).products, id).Some?
    ensures k < |requests| && LastSet(Books([], []), requests, k, id)
    ensures var before, after := HandleAll(Books([], []), requests[..k]), HandleAll(Books([], []), requests);
      var stock := Available(Handle(before, requests[k]).products, id);
      && stock.Some?
      && (Available(after.products, id).value + Reserved(after.movements, id) == stock.value
          <==> Reserved(before.movements, id) == 0)
  {
    var opening := Books([], []);
    if NeverSets(opening, requests, id) {
      RunBalances(opening, requests, id);
    }
    k := LastSetExists(opening, requests, id);
    var before := HandleAll(opening, requests[..k]);
    var rest := requests[k + 1..];
    HandleInTwo(opening, requests[..k], [requests[k]]);
    assert requests[..k] + [requests[k]] == requests[..k + 1];
    assert [requests[k]][1..] == [];
    HandleInTwo(opening, requests[..k], [requests[k]] + rest);
    assert requests[..k] + ([requests[k]] + rest) == requests;
    RunBalances(Handle(before, requests[k]), rest, id);
    var stock := Available(Handle(before, requests[k]).products, id).value;
    LedgerMatchesStock(before, requests[k].product, stock, rest, id);
  }

  /** A reserve of a variant nobody added is granted and booked; adding it later leaves the ledger off by that much. */
  lemma ReservedBeforeAdded()
    ensures var early := Moving(Reserving, "r", [Line("v", 1)]);
      var after := HandleAll(Books([], []), [early, Adding(Product("p", [Variant("v", Some(5), false)]))]);
      Available(after.products, "v") == Some(5) && Reserved(after.movements, "v") == 1
  {
    var early := Moving(Reserving, "r", [Line("v", 1)]);
    var p := Product("p", [Variant("v", Some(5), false)]);
    var books := Handle(Books([], []), early);
    assert [early, Adding(p)][1..] == [Adding(p)];
    assert [Line("v", 1)][..0] == [];
    assert [Movement(Reserving, "r", [Line("v", 1)])][..0] == [];
    DemandOneMore([], Line("v", 1), "v");
    assert [] + [Line("v", 1)] == [Line("v", 1)];
    assert books == Books([], [Movement(Reserving, "r", [Line("v", 1)])]);
    assert HandleAll(books, [Adding(p)]) == Books([p], books.movements);
  }

  // ---- cursor paging -----------------------------------------------------

  /** findIndex: -1 when the id is not there. */
  function IndexOf(ids: seq<string>, id: string): (i: int)
    ensures -1 <= i < |ids| && (i >= 0 ==> ids[i] == id) && (i < 0 ==> id !in ids)
  {
    if ids == [] then -1
    else if ids[0] == id then 0
    else var i := IndexOf(ids[1..], id); if i < 0 then -1 else i + 1
  }

  /** One page of the product ids in the order they were added, and the cursor for the next. */
  function PageOf(ids: seq<string>, cursor: Option<string>, limit: nat): (seq<string>, Option<string>)
    requires limit > 0
  {
    var from := if cursor.None? then 0 else IndexOf(ids, cursor.value) + 1;
    var to := if from + limit < |ids| then from + limit else |ids|;
    (ids[from..to], if from + limit < |ids| then Some(ids[to - 1]) else None)
  }

  /** Following cursors while products are added: one list of ids for every page, until there is no cursor. */
  ghost predicate Finishes(lists: seq<seq<string>>, cursor: Option<string>, limit: nat)
    requires limit > 0
    decreases |lists|
  {
    lists != [] &&
    match PageOf(lists[0], cursor, limit).1
    case None => |lists| == 1
    case Some(next) => Finishes(lists[1..], Some(next), limit)
  }

  function Scan(lists: seq<seq<string>>, cursor: Option<string>, limit: nat): seq<string>
    requires limit > 0 && Finishes(lists, cursor, limit)
    decreases |lists|
  {
    var page := PageOf(lists[0], cursor, limit);
    if page.1.None? then page.0 else page.0 + Scan(lists[1..], page.1, limit)
  }

  ghost predicate Distinct(ids: seq<string>) {
    forall i, j :: 0 <= i < j < |ids| ==> ids[i] != ids[j]
  }

  /** The cursor is the id before position from, or there is none and from is the beginning. */
  ghost predicate StandsAt(ids: seq<string>, cursor: Option<string>, from: nat) {
    from <= |ids| && if cursor.None? then from == 0 else from > 0 && ids[from - 1] == cursor.value
  }

  lemma {:induction false} PageAt(ids: seq<string>, cursor: Option<string>, from: nat, limit: nat)
    requires limit > 0 && Distinct(ids) && StandsAt(ids, cursor, from)
    ensures PageOf(ids, cursor, limit) ==
      if from + limit < |ids| then (ids[from..from + limit], Some(ids[from + limit - 1])) else (ids[from..], None)
  {
    assert cursor.Some? ==> IndexOf(ids, cursor.value) == from - 1;
    assert ids[from..|ids|] == ids[from..];
  }

  /** While products are only added, a finished scan shows everything after its cursor once, in the order added. */
  lemma {:induction false} ScanShowsAll(lists: seq<seq<string>>, from: nat, limit: nat, cursor: Option<string>)
    requires limit > 0 && Finishes(lists, cursor, limit) && StandsAt(lists[0], cursor, from)
    requires forall i :: 0 <= i < |lists| ==> Distinct(lists[i])
    requires forall i :: 0 <= i < |lists| - 1 ==> lists[i] <= lists[i + 1]
    ensures var last := lists[|lists| - 1]; from <= |last| && Scan(lists, cursor, limit) == last[from..]
    decreases |lists|
  {
    hide PageOf;
    var ids := lists[0];
    PageAt(ids, cursor, from, limit);
    PrefixOfLast(lists, 0);
    var page := PageOf(ids, cursor, limit);
    if page.1.Some? {
      assert lists[0] <= lists[1] && lists[1..][0] == lists[1];
      assert StandsAt(lists[1], page.1, from + limit);
      ScanShowsAll(lists[1..], from + limit, limit, page.1);
      var last := lists[|lists| - 1];
      assert lists[1..][|lists| - 2] == last;
      assert last[from..] == ids[from..from + limit] + last[from + limit..];
    }
  }

  lemma {:induction false} PrefixOfLast(lists: seq<seq<string>>, i: nat)
    requires i < |lists| && forall k :: 0 <= k < |lists| - 1 ==> lists[k] <= lists[k + 1]
    ensures lists[i] <= lists[|lists| - 1]
    decreases |lists| - i
  {
    if i + 1 < |lists| {
      PrefixOfLast(lists, i + 1);
    }
  }
}

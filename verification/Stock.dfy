/**
 Holding stock for an order in the PHP connector (connectors/php/ncom-connector.php):
 conditional updates inside a transaction, all or nothing, and giving units back.
 A row without a stock figure is not counted and can always be sold.
 */
module Stock {
  import opened Options

  datatype Row = Row(stock: Option<int>, backorder: bool)

  type Rows = map<string, Row>

  datatype Line = Line(variantId: string, quantity: int)

  /** The row after quantity units have gone; an absent figure stays absent. */
  function Debit(row: Row, quantity: int): Row {
    match row.stock
    case None => row
    case Some(stock) => row.(stock := Some(stock - quantity))
  }

  /** How many units the lines ask of one variant. */
  function Demand(lines: seq<Line>, id: string): int {
    if lines == [] then 0
    else
      var last := lines[|lines| - 1];
      Demand(lines[..|lines| - 1], id) + if last.variantId == id then last.quantity else 0
  }

  function Debited(rows: Rows, lines: seq<Line>): Rows {
    map id | id in rows :: Debit(rows[id], Demand(lines, id))
  }

  /** The condition of the update: stock IS NULL OR stock >= quantity OR allow_backorder. */
  predicate CanTake(rows: Rows, line: Line) {
    && line.variantId in rows
    && var row := rows[line.variantId];
       row.stock.None? || row.stock.value >= line.quantity || row.backorder
  }

  /** The lines whose update matched a row, each tried on what the earlier ones left. */
  function Accepted(rows: Rows, lines: seq<Line>): seq<Line> {
    if lines == [] then [] else
      var before := Accepted(rows, lines[..|lines| - 1]);
      if CanTake(Debited(rows, before), lines[|lines| - 1]) then before + [lines[|lines| - 1]] else before
  }

  /** The variants of the lines whose update matched none. */
  function Rejected(rows: Rows, lines: seq<Line>): seq<string> {
    if lines == [] then [] else
      var n := |lines| - 1;
      Rejected(rows, lines[..n])
      + if CanTake(Debited(rows, Accepted(rows, lines[..n])), lines[n]) then [] else [lines[n].variantId]
  }

  predicate Holds(rows: Rows, lines: seq<Line>) {
    Rejected(rows, lines) == []
  }

  class StockTable {
    var rows: Rows

    constructor (rows: Rows)
      ensures this.rows == rows
    {
      this.rows := rows;
    }

    /** One conditional update; the count of rows it matched. */
    method Take(line: Line) returns (rowCount: nat)
      modifies this
      ensures rowCount == if old(CanTake(rows, line)) then 1 else 0
      ensures rows == if rowCount == 0 then old(rows)
        else old(rows)[line.variantId := Debit(old(rows)[line.variantId], line.quantity)]
    {
      if CanTake(rows, line) {
        rows := rows[line.variantId := Debit(rows[line.variantId], line.quantity)];
        rowCount := 1;
      } else {
        rowCount := 0;
      }
    }

    method Reserve(lines: seq<Line>) returns (ok: bool, rejected: seq<string>)
      modifies this
      ensures ok <==> Holds(old(rows), lines)
      ensures rejected == Rejected(old(rows), lines)
      ensures rows == if ok then Debited(old(rows), lines) else old(rows)
    {
      var beginning := rows;
      ghost var accepted := [];
      rejected := [];
      DebitNothing(rows);
      for i := 0 to |lines|
        invariant accepted == Accepted(beginning, lines[..i]) && rows == Debited(beginning, accepted)
        invariant rejected == Rejected(beginning, lines[..i])
      {
        assert lines[..i + 1][..i] == lines[..i];
        var rowCount := Take(lines[i]);
        if rowCount == 0 {
          rejected := rejected + [lines[i].variantId];
        } else {
          DebitOneMore(beginning, accepted, lines[i]);
          accepted := accepted + [lines[i]];
        }
      }
      assert lines[..|lines|] == lines;
      ok := rejected == [];
      if ok {
        AllAccepted(beginning, lines);
      } else {
        rows := beginning;
      }
    }

    /** Gives units back: one unconditional update for each line. */
    method Release(lines: seq<Line>)
      modifies this
      ensures rows == GivenBack(old(rows), lines)
    {
      GiveNothing(rows);
      for i := 0 to |lines|
        invariant rows == GivenBack(old(rows), lines[..i])
      {
        var line := lines[i];
        assert lines[..i + 1][..i] == lines[..i];
        if line.variantId in rows {
          rows := rows[line.variantId := Debit(rows[line.variantId], -line.quantity)];
        }
      }
      assert lines[..|lines|] == lines;
    }
  }

  function GivenBack(rows: Rows, lines: seq<Line>): Rows {
    map id | id in rows :: Debit(rows[id], -Demand(lines, id))
  }

  lemma DebitNothing(rows: Rows)
    ensures Debited(rows, []) == rows
  {
  }

  lemma GiveNothing(rows: Rows)
    ensures GivenBack(rows, []) == rows
  {
  }

  lemma {:induction false} DemandOneMore(lines: seq<Line>, line: Line, id: string)
    ensures Demand(lines + [line], id) == Demand(lines, id) + if line.variantId == id then line.quantity else 0
  {
    assert (lines + [line])[..|lines|] == lines;
  }

  lemma {:induction false} DebitOneMore(rows: Rows, lines: seq<Line>, line: Line)
    requires line.variantId in rows
    ensures var before := Debited(rows, lines);
      Debited(rows, lines + [line]) == before[line.variantId := Debit(before[line.variantId], line.quantity)]
  {
    forall id
      ensures Demand(lines + [line], id) == Demand(lines, id) + if line.variantId == id then line.quantity else 0
    {
      DemandOneMore(lines, line, id);
    }
  }

  lemma {:induction false} AllAccepted(rows: Rows, lines: seq<Line>)
    requires Holds(rows, lines)
    ensures Accepted(rows, lines) == lines
  {
    if lines != [] {
      AllAccepted(rows, lines[..|lines| - 1]);
    }
  }

  /** Giving back the lines of a hold undoes it. */
  lemma ReleaseUndoesReserve(rows: Rows, lines: seq<Line>)
    ensures GivenBack(Debited(rows, lines), lines) == rows
  {
    forall id | id in rows ensures Debit(Debit(rows[id], Demand(lines, id)), -Demand(lines, id)) == rows[id] {
    }
  }

  // ---- what is accepted --------------------------------------------------

  /** Every variant asked for exists, and is uncounted, backorderable or in stock for the whole demand. */
  ghost predicate Affordable(rows: Rows, lines: seq<Line>) {
    forall line :: line in lines ==> CanTake(rows, Line(line.variantId, Demand(lines, line.variantId)))
  }

  ghost predicate NonNegative(lines: seq<Line>) {
    forall line :: line in lines ==> line.quantity >= 0
  }

  lemma {:induction false} DemandNonNegative(lines: seq<Line>, id: string)
    requires NonNegative(lines)
    ensures Demand(lines, id) >= 0
  {
    if lines != [] {
      var n := |lines| - 1;
      assert lines[n] in lines && forall line :: line in lines[..n] ==> line in lines;
      DemandNonNegative(lines[..n], id);
    }
  }

  /** The update loop accepts exactly the lists whose summed demand the stock can meet, repeated variants included. */
  lemma {:induction false} HoldsIffAffordable(rows: Rows, lines: seq<Line>)
    requires NonNegative(lines)
    ensures Holds(rows, lines) <==> Affordable(rows, lines)
  {
    if lines != [] {
      var n := |lines| - 1;
      var before, last := lines[..n], lines[n];
      assert lines == before + [last];
      assert forall line :: line in lines <==> line in before || line == last;
      HoldsIffAffordable(rows, before);
      if Holds(rows, before) {
        AllAccepted(rows, before);
      }
      forall id ensures Demand(lines, id) == Demand(before, id) + if last.variantId == id then last.quantity else 0 {
        DemandOneMore(before, last, id);
      }
      DemandNonNegative(before, last.variantId);
      LastAffordable(rows, before, last);
    }
  }

  /** Taking the lines would leave a counted variant that takes no backorders below zero. */
  predicate Oversold(rows: Rows, lines: seq<Line>, id: string)
    requires id in rows
  {
    rows[id].stock.Some? && !rows[id].backorder && rows[id].stock.value - Demand(lines, id) < 0
  }

  /** A list is accepted exactly when every variant exists and none would be oversold. */
  lemma {:induction false} HoldsIffNothingOversold(rows: Rows, lines: seq<Line>)
    requires NonNegative(lines)
    ensures Holds(rows, lines) <==>
      forall line :: line in lines ==> line.variantId in rows && !Oversold(rows, lines, line.variantId)
  {
    HoldsIffAffordable(rows, lines);
    if Holds(rows, lines) {
      forall line | line in lines ensures CanTake(rows, Line(line.variantId, Demand(lines, line.variantId))) {
      }
    } else {
      var line :| line in lines && !CanTake(rows, Line(line.variantId, Demand(lines, line.variantId)));
    }
  }

  lemma {:induction false} LastAffordable(rows: Rows, before: seq<Line>, last: Line)
    requires NonNegative(before) && last.quantity >= 0
    ensures Affordable(rows, before + [last]) <==> Affordable(rows, before) && CanTake(Debited(rows, before), last)
  {
    var lines := before + [last];
    forall id ensures Demand(lines, id) == Demand(before, id) + if last.variantId == id then last.quantity else 0 {
      DemandOneMore(before, last, id);
    }
    assert last in lines && forall line :: line in before ==> line in lines;
    DemandNonNegative(before, last.variantId);
    if Affordable(rows, lines) {
      assert CanTake(rows, Line(last.variantId, Demand(lines, last.variantId)));
      forall line | line in before ensures CanTake(rows, Line(line.variantId, Demand(before, line.variantId))) {
        assert CanTake(rows, Line(line.variantId, Demand(lines, line.variantId)));
      }
    }
    if Affordable(rows, before) && CanTake(Debited(rows, before), last) {
      forall line | line in lines ensures CanTake(rows, Line(line.variantId, Demand(lines, line.variantId))) {
        if line.variantId != last.variantId {
          assert CanTake(rows, Line(line.variantId, Demand(before, line.variantId)));
        }
      }
    }
  }

  lemma {:induction false} DemandAppend(a: seq<Line>, b: seq<Line>, id: string)
    ensures Demand(a + b, id) == Demand(a, id) + Demand(b, id)
  {
    if b == [] {
      assert a + b == a;
    } else {
      assert (a + b)[..|a + b| - 1] == a + b[..|b| - 1];
      DemandAppend(a, b[..|b| - 1], id);
    }
  }

  lemma {:induction false} DemandOfPermutation(lines: seq<Line>, other: seq<Line>, id: string)
    requires multiset(lines) == multiset(other)
    ensures Demand(lines, id) == Demand(other, id)
  {
    if lines == [] {
      EmptyPermutation(other);
    } else {
      var n := |lines| - 1;
      var j := LastInPermutation(lines, other);
      DemandOfPermutation(lines[..n], Without(other, j), id);
      DemandWithout(other, j, id);
    }
  }

  lemma {:induction false} DemandWithout(lines: seq<Line>, j: nat, id: string)
    requires j < |lines|
    ensures Demand(lines, id)
      == Demand(Without(lines, j), id) + if lines[j].variantId == id then lines[j].quantity else 0
  {
    assert lines == lines[..j] + [lines[j]] + lines[j + 1..];
    DemandAppend(lines[..j] + [lines[j]], lines[j + 1..], id);
    DemandOneMore(lines[..j], lines[j], id);
    DemandAppend(lines[..j], lines[j + 1..], id);
  }

  /** Neither the decision nor the stock it leaves depends on the order of the lines. */
  lemma {:induction false} OrderOfLinesIrrelevant(rows: Rows, lines: seq<Line>, other: seq<Line>)
    requires NonNegative(lines) && multiset(lines) == multiset(other)
    ensures Holds(rows, lines) <==> Holds(rows, other)
    ensures Debited(rows, lines) == Debited(rows, other)
  {
    forall id ensures Demand(lines, id) == Demand(other, id) {
      DemandOfPermutation(lines, other, id);
    }
    forall line ensures line in lines <==> line in other {
      assert line in multiset(lines) <==> line in multiset(other);
    }
    HoldsIffAffordable(rows, lines);
    HoldsIffAffordable(rows, other);
  }

  // ---- runs of committed transactions --------------------------------------

  /** The shop with, for every hold it granted, the lines of it that have not been given back yet. */
  datatype Shop = Shop(rows: Rows, holds: seq<seq<Line>>)

  /**
   A reservation is one transaction. A release commits line by line, so the lines of several
   releases and reservations may interleave; Return gives back the next line of one hold.
   */
  datatype Event = Reserve(lines: seq<Line>) | Return(hold: nat)

  predicate Possible(shop: Shop, event: Event) {
    match event
    case Reserve(lines) => forall line :: line in lines ==> line.quantity > 0
    case Return(hold) => hold < |shop.holds| && shop.holds[hold] != []
  }

  function Next(shop: Shop, event: Event): Shop
    requires Possible(shop, event)
  {
    match event
    case Reserve(lines) =>
      if Holds(shop.rows, lines) then Shop(Debited(shop.rows, lines), shop.holds + [lines]) else shop
    case Return(hold) =>
      Shop(GivenBack(shop.rows, [shop.holds[hold][0]]), shop.holds[hold := shop.holds[hold][1..]])
  }

  ghost predicate IsRun(shop: Shop, events: seq<Event>)
    decreases |events|
  {
    events == [] || (Possible(shop, events[0]) && IsRun(Next(shop, events[0]), events[1..]))
  }

  function After(shop: Shop, events: seq<Event>): Shop
    requires IsRun(shop, events)
    decreases |events|
  {
    if events == [] then shop else After(Next(shop, events[0]), events[1..])
  }

  /** A run grows by one event at its end: if that is possible where the run has got to, it leads on from there. */
  lemma {:induction false} RunOneMore(shop: Shop, events: seq<Event>, event: Event)
    ensures IsRun(shop, events + [event]) <==> IsRun(shop, events) && Possible(After(shop, events), event)
    ensures IsRun(shop, events + [event]) ==> After(shop, events + [event]) == Next(After(shop, events), event)
    ensures IsRun(shop, []) && After(shop, []) == shop
    decreases |events|
  {
    hide Next, Possible;
    if events == [] {
      assert [event][1..] == [] && events + [event] == [event];
    } else {
      assert (events + [event])[1..] == events[1..] + [event];
      if Possible(shop, events[0]) {
        RunOneMore(Next(shop, events[0]), events[1..], event);
      }
    }
  }

  /**
   What an event does. A reservation of positive quantities is always possible; it is granted, and its lines are
   held and taken off the stock, exactly when nothing would be oversold. A return is possible as long as the hold
   has a line left, and gives that line's quantity back to its variant.
   */
  lemma {:induction false} NextMeans(shop: Shop, event: Event)
    ensures match event
      case Reserve(lines) =>
        && (Possible(shop, event) <==> forall line :: line in lines ==> 0 < line.quantity)
        && var granted := forall line :: line in lines ==>
             line.variantId in shop.rows && !Oversold(shop.rows, lines, line.variantId);
           Possible(shop, event) ==>
             Next(shop, event) == if granted then Shop(Debited(shop.rows, lines), shop.holds + [lines]) else shop
      case Return(hold) =>
        && (Possible(shop, event) <==> hold < |shop.holds| && |shop.holds[hold]| > 0)
        && (Possible(shop, event) ==> (
              var line, shop' := shop.holds[hold][0], Next(shop, event);
              && shop'.holds == shop.holds[hold := shop.holds[hold][1..]]
              && shop'.rows.Keys == shop.rows.Keys
              && forall id :: id in shop.rows ==>
                    shop'.rows[id]
                      == if id == line.variantId then Debit(shop.rows[id], -line.quantity) else shop.rows[id]))
  {
    match event {
      case Reserve(lines) =>
        if Possible(shop, event) {
          HoldsIffNothingOversold(shop.rows, lines);
        }
      case Return(hold) =>
        if Possible(shop, event) {
          var line := shop.holds[hold][0];
          forall id ensures Demand([line], id) == if line.variantId == id then line.quantity else 0 {
            DemandOfFirst([line], id);
          }
        }
    }
  }

  function Outstanding(holds: seq<seq<Line>>, id: string): int {
    if holds == [] then 0 else Outstanding(holds[..|holds| - 1], id) + Demand(holds[|holds| - 1], id)
  }

  lemma {:induction false} OutstandingUpdate(holds: seq<seq<Line>>, i: nat, lines: seq<Line>, id: string)
    requires i < |holds|
    ensures Outstanding(holds[i := lines], id) == Outstanding(holds, id) - Demand(holds[i], id) + Demand(lines, id)
  {
    var n := |holds| - 1;
    if i < n {
      OutstandingUpdate(holds[..n], i, lines, id);
      assert holds[i := lines][..n] == holds[..n][i := lines];
    } else {
      assert holds[i := lines][..n] == holds[..n];
    }
  }

  lemma {:induction false} DemandOfFirst(lines: seq<Line>, id: string)
    requires lines != []
    ensures Demand([lines[0]], id) == if lines[0].variantId == id then lines[0].quantity else 0
    ensures Demand(lines, id) == Demand([lines[0]], id) + Demand(lines[1..], id)
  {
    assert lines == [lines[0]] + lines[1..];
    DemandAppend([lines[0]], lines[1..], id);
    DemandOneMore([], lines[0], id);
    assert [] + [lines[0]] == [lines[0]];
  }

  /** The rows are the initial ones, less what the holds still keep. */
  ghost predicate Conserved(initial: Rows, shop: Shop) {
    shop.rows == map id | id in initial :: Debit(initial[id], Outstanding(shop.holds, id))
  }

  ghost predicate HoldsPositive(shop: Shop) {
    forall i, line :: 0 <= i < |shop.holds| && line in shop.holds[i] ==> line.quantity > 0
  }

  /** Counted rows without backorder have not gone below zero. */
  ghost predicate NeverNegative(rows: Rows) {
    forall id :: id in rows && rows[id].stock.Some? && !rows[id].backorder ==> rows[id].stock.value >= 0
  }

  lemma ReserveConserves(initial: Rows, shop: Shop, lines: seq<Line>)
    requires Conserved(initial, shop)
    ensures Conserved(initial, Shop(Debited(shop.rows, lines), shop.holds + [lines]))
  {
    assert (shop.holds + [lines])[..|shop.holds|] == shop.holds;
  }

  lemma ReturnConserves(initial: Rows, shop: Shop, hold: nat)
    requires Possible(shop, Return(hold)) && Conserved(initial, shop)
    ensures Conserved(initial, Next(shop, Return(hold)))
  {
    hide Outstanding, Demand;
    var lines := shop.holds[hold];
    var left := shop.holds[hold := lines[1..]];
    forall id: string
      ensures Outstanding(left, id) == Outstanding(shop.holds, id) - Demand([lines[0]], id)
    {
      ReturnOf(shop.holds, hold, id);
    }
    forall row: Row, id: string
      ensures Debit(Debit(row, Outstanding(shop.holds, id)), -Demand([lines[0]], id))
        == Debit(row, Outstanding(left, id))
    {
    }
  }

  /** Giving the next line of a hold back takes its quantity off what its variant has outstanding. */
  lemma {:induction false} ReturnOf(holds: seq<seq<Line>>, hold: nat, id: string)
    requires hold < |holds| && holds[hold] != []
    ensures Outstanding(holds[hold := holds[hold][1..]], id) == Outstanding(holds, id) - Demand([holds[hold][0]], id)
  {
    hide Outstanding, Demand;
    DemandOfFirst(holds[hold], id);
    OutstandingUpdate(holds, hold, holds[hold][1..], id);
  }

  lemma NextConserves(initial: Rows, shop: Shop, event: Event)
    requires Possible(shop, event) && Conserved(initial, shop)
    ensures Conserved(initial, Next(shop, event))
  {
    hide Conserved;
    match event {
      case Reserve(lines) => ReserveConserves(initial, shop, lines);
      case Return(hold) => ReturnConserves(initial, shop, hold);
    }
  }

  lemma NextStaysPositive(shop: Shop, event: Event)
    requires Possible(shop, event) && HoldsPositive(shop) && NeverNegative(shop.rows)
    ensures HoldsPositive(Next(shop, event)) && NeverNegative(Next(shop, event).rows)
  {
    var shop' := Next(shop, event);
    match event {
      case Reserve(lines) =>
        if Holds(shop.rows, lines) {
          HoldsIffAffordable(shop.rows, lines);
          forall id | id in shop.rows
            ensures shop'.rows[id].stock.Some? && !shop.rows[id].backorder ==> shop'.rows[id].stock.value >= 0
          {
            StaysPositive(shop.rows, lines, id);
          }
        }
      case Return(hold) =>
        var line := shop.holds[hold][0];
        assert line in shop.holds[hold];
        forall id ensures Demand([line], id) >= 0 {
          DemandOfFirst([line], id);
        }
    }
  }

  lemma {:induction false} StaysPositive(rows: Rows, lines: seq<Line>, id: string)
    requires id in rows && NonNegative(lines) && Affordable(rows, lines) && NeverNegative(rows)
    ensures var row := Debited(rows, lines)[id]; row.stock.Some? && !row.backorder ==> row.stock.value >= 0
  {
    if exists line :: line in lines && line.variantId == id {
      var line :| line in lines && line.variantId == id;
      assert CanTake(rows, Line(line.variantId, Demand(lines, line.variantId)));
    } else {
      NoDemand(lines, id);
    }
  }

  lemma {:induction false} NoDemand(lines: seq<Line>, id: string)
    requires forall line :: line in lines ==> line.variantId != id
    ensures Demand(lines, id) == 0
  {
    if lines != [] {
      assert lines[|lines| - 1] in lines && forall line :: line in lines[..|lines| - 1] ==> line in lines;
      NoDemand(lines[..|lines| - 1], id);
    }
  }

  lemma {:induction false} RunConserves(initial: Rows, shop: Shop, events: seq<Event>)
    requires IsRun(shop, events) && Conserved(initial, shop) && HoldsPositive(shop) && NeverNegative(shop.rows)
    ensures Conserved(initial, After(shop, events)) && NeverNegative(After(shop, events).rows)
    decreases |events|
  {
    hide Next, Possible, Conserved, HoldsPositive, NeverNegative;
    if events != [] {
      NextConserves(initial, shop, events[0]);
      NextStaysPositive(shop, events[0]);
      RunConserves(initial, Next(shop, events[0]), events[1..]);
    }
  }

  /**
   Over every run of reservations and returned lines, a counted variant's stock plus what is still held
   of it is what it started with, and without backorder it never goes below zero.
   */
  lemma StockConserved(initial: Rows, events: seq<Event>, id: string)
    requires IsRun(Shop(initial, []), events) && NeverNegative(initial)
    requires id in initial && initial[id].stock.Some?
    ensures var shop := After(Shop(initial, []), events);
      && id in shop.rows && shop.rows[id].stock.Some?
      && shop.rows[id].stock.value + Outstanding(shop.holds, id) == initial[id].stock.value
      && (!initial[id].backorder ==> shop.rows[id].stock.value >= 0)
  {
    RunConserves(initial, Shop(initial, []), events);
  }
}

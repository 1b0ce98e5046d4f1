/**
 The WooCommerce connector's reservation (connectors/woocommerce/ncom-connector.php):
 it takes stock line by line and, if any line was refused, gives back what it took.
 Products whose stock is not managed have no figure; a product can also be flagged out
 of stock by hand.
 */
module WooStock {
  import opened Options
  import opened Stock

  datatype Reason = NoLongerSold | OnlyLeft(stock: Option<int>)

  datatype Refusal = Refusal(variantId: string, reason: Reason)

  function Max(a: int, b: int): int {
    if a < b then b else a
  }

  /** The quantity is never taken for less than one. */
  function AtLeastOne(lines: seq<Line>): (r: seq<Line>)
    ensures |r| == |lines|
    ensures forall i :: 0 <= i < |lines| ==>
      && r[i].variantId == lines[i].variantId
      && r[i].quantity >= 1 && (lines[i].quantity >= 1 ==> r[i] == lines[i])
      && (lines[i].quantity < 1 ==> r[i].quantity == 1)
  {
    seq(|lines|, i requires 0 <= i < |lines| => lines[i].(quantity := Max(1, lines[i].quantity)))
  }

  /**
   One refusal for every line that cannot be taken after those taken before it: of a row that is gone, or
   with the stock figure the row has by then.
   */
  function Refusals(rows: Rows, flagged: set<string>, lines: seq<Line>): seq<Refusal> {
    if lines == [] then [] else
      var n := |lines| - 1;
      Refusals(rows, flagged, lines[..n])
        + RefusalOf(rows, flagged, Accepted(SellableRows(rows, flagged), lines[..n]), lines[n])
  }

  function RefusalOf(rows: Rows, flagged: set<string>, taken: seq<Line>, line: Line): (r: seq<Refusal>)
    ensures |r| <= 1
  {
    if CanTake(Debited(SellableRows(rows, flagged), taken), line) then []
    else if line.variantId !in rows then [Refusal(line.variantId, NoLongerSold)]
    else [Refusal(line.variantId, OnlyLeft(Debited(rows, taken)[line.variantId].stock))]
  }

  class WooShop {
    var rows: Rows
    const flagged: set<string>

    constructor (rows: Rows, flagged: set<string>)
      ensures this.rows == rows && this.flagged == flagged
    {
      this.rows := rows;
      this.flagged := flagged;
    }

    /** What the shop can sell from: the rows not flagged out of stock. */
    ghost function Sellable(): Rows
      reads this
    {
      SellableRows(rows, flagged)
    }

    /** wc_update_product_stock, with a negative quantity for an increase. */
    method Decrease(id: string, quantity: int)
      requires id in rows
      modifies this`rows
      ensures rows == old(rows)[id := Debit(old(rows)[id], quantity)]
    {
      rows := rows[id := Debit(rows[id], quantity)];
    }

    method Reserve(payload: seq<Line>) returns (ok: bool, rejected: seq<Refusal>)
      modifies this`rows
      ensures ok <==> Holds(old(Sellable()), AtLeastOne(payload))
      ensures rows == if ok then Debited(old(rows), AtLeastOne(payload)) else old(rows)
      ensures rejected == Refusals(old(rows), flagged, AtLeastOne(payload))
    {
      hide Demand, AtLeastOne;
      var lines := AtLeastOne(payload);
      ghost var before, sellable := rows, Sellable();
      rejected := [];
      var taken: seq<Line> := [];
      DebitNothing(rows);
      for i := 0 to |lines|
        invariant taken == Accepted(sellable, lines[..i]) && rows == Debited(before, taken)
        invariant forall line :: line in taken ==> line.variantId in before
        invariant rejected == Refusals(before, flagged, lines[..i])
      {
        var line := lines[i];
        assert lines[..i + 1][..i] == lines[..i];
        SellableDebited(before, flagged, sellable, taken);
        if line.variantId !in rows {
          rejected := rejected + [Refusal(line.variantId, NoLongerSold)];
        } else {
          var row := rows[line.variantId];
          var enough := row.stock.None? || row.backorder || row.stock.value >= line.quantity;
          if line.variantId in flagged || !enough {
            rejected := rejected + [Refusal(line.variantId, OnlyLeft(row.stock))];
          } else {
            DebitOneMore(before, taken, line);
            Decrease(line.variantId, line.quantity);
            taken := taken + [line];
          }
        }
      }
      assert lines[..|lines|] == lines;
      RefusalsOfRejected(before, flagged, lines);
      ok := |rejected| == 0;
      if ok {
        AllAccepted(sellable, lines);
      } else {
        GiveBack(before, taken);
      }
    }

    /** The compensation loop: what was taken goes back, first taken first. */
    method GiveBack(ghost before: Rows, taken: seq<Line>)
      requires rows == Debited(before, taken)
      requires forall line :: line in taken ==> line.variantId in before
      modifies this`rows
      ensures rows == before
    {
      for i := 0 to |taken|
        invariant rows == Debited(before, taken[i..])
      {
        assert taken[i..][0] == taken[i] && taken[i..][1..] == taken[i + 1..];
        CreditFirst(before, taken[i..]);
        Decrease(taken[i].variantId, -taken[i].quantity);
      }
      DebitNothing(before);
    }
  }

  /** The refusals name the variants whose update would match no row, in order. */
  lemma {:induction false} RefusalsOfRejected(rows: Rows, flagged: set<string>, lines: seq<Line>)
    ensures var refusals, rejected := Refusals(rows, flagged, lines), Rejected(SellableRows(rows, flagged), lines);
      |refusals| == |rejected| && forall i :: 0 <= i < |refusals| ==> refusals[i].variantId == rejected[i]
  {
    hide Accepted, CanTake, Debited;
    if lines != [] {
      RefusalsOfRejected(rows, flagged, lines[..|lines| - 1]);
    }
  }

  /**
   A refusal tells the truth about one line: its variant is not in the shop, or is flagged, or the figure is what
   the lines taken before it left, and is less than the line asks.
   */
  lemma {:induction false} RefusalMeans(rows: Rows, flagged: set<string>, lines: seq<Line>, refusal: Refusal)
    requires refusal in Refusals(rows, flagged, lines)
    ensures exists j :: 0 <= j < |lines| && Refuses(rows, flagged, lines, j, refusal)
  {
    var n := |lines| - 1;
    if refusal in Refusals(rows, flagged, lines[..n]) {
      RefusalMeans(rows, flagged, lines[..n], refusal);
      var j :| 0 <= j < n && Refuses(rows, flagged, lines[..n], j, refusal);
      assert lines[..n][..j] == lines[..j];
      assert Refuses(rows, flagged, lines, j, refusal);
    } else {
      SellableDebited(rows, flagged, SellableRows(rows, flagged), Accepted(SellableRows(rows, flagged), lines[..n]));
      assert Refuses(rows, flagged, lines, n, refusal);
    }
  }

  ghost predicate Refuses(rows: Rows, flagged: set<string>, lines: seq<Line>, j: nat, refusal: Refusal)
    requires j < |lines|
  {
    var id := lines[j].variantId;
    && refusal.variantId == id
    && match refusal.reason
       case NoLongerSold => id !in rows
       case OnlyLeft(stock) =>
         && id in rows
         && stock == Debit(rows[id], Demand(Accepted(SellableRows(rows, flagged), lines[..j]), id)).stock
         && (id in flagged || (stock.Some? && stock.value < lines[j].quantity && !rows[id].backorder))
  }

  lemma SellableDebited(rows: Rows, flagged: set<string>, sellable: Rows, lines: seq<Line>)
    requires sellable == SellableRows(rows, flagged)
    ensures Debited(sellable, lines) == SellableRows(Debited(rows, lines), flagged)
  {
  }

  /** Giving the first line back leaves what the other lines took. */
  lemma {:induction false} CreditFirst(rows: Rows, lines: seq<Line>)
    requires lines != [] && lines[0].variantId in rows
    ensures var d := Debited(rows, lines);
      Debited(rows, lines[1..]) == d[lines[0].variantId := Debit(d[lines[0].variantId], -lines[0].quantity)]
  {
    forall id
      ensures Demand(lines, id)
        == Demand(lines[1..], id) + if lines[0].variantId == id then lines[0].quantity else 0
    {
      DemandOfFirst(lines, id);
    }
  }

  function SellableRows(rows: Rows, flagged: set<string>): Rows {
    map id | id in rows && id !in flagged :: rows[id]
  }

  /**
   Run alone, taking and compensating ends where the transaction of the PHP connector ends: for positive
   quantities it accepts what PHP accepts, unless a variant is flagged by hand, and takes the same stock.
   */
  lemma SameAsTransaction(rows: Rows, flagged: set<string>, lines: seq<Line>)
    requires forall line :: line in lines ==> line.quantity >= 1
    ensures Holds(SellableRows(rows, flagged), AtLeastOne(lines)) <==>
      Holds(rows, lines) && forall line :: line in lines ==> line.variantId !in flagged
    ensures Debited(rows, AtLeastOne(lines)) == Debited(rows, lines)
  {
    forall i | 0 <= i < |lines| ensures AtLeastOne(lines)[i] == lines[i] {
      assert lines[i] in lines;
    }
    assert AtLeastOne(lines) == lines;
    HoldsIffAffordable(rows, lines);
    HoldsIffAffordable(SellableRows(rows, flagged), lines);
    forall line | line in lines
      ensures CanTake(SellableRows(rows, flagged), Line(line.variantId, Demand(lines, line.variantId)))
        <==> CanTake(rows, Line(line.variantId, Demand(lines, line.variantId))) && line.variantId !in flagged
    {
    }
    var sellable := SellableRows(rows, flagged);
    if Affordable(sellable, lines) {
      forall line | line in lines
        ensures CanTake(rows, Line(line.variantId, Demand(lines, line.variantId))) && line.variantId !in flagged
      {
        assert CanTake(sellable, Line(line.variantId, Demand(lines, line.variantId)));
      }
    } else {
      var line :| line in lines && !CanTake(sellable, Line(line.variantId, Demand(lines, line.variantId)));
    }
  }
}

/** The total price of a service: the loop of searchServices and selectService over the
    joined rows, and the sum it stands for. */
module PartsTotals {
  import opened Basics
  import opened Tables
  import opened Services
  import opened PartsLedger
  import Decimal

  /** PARTS: the price of every part. */
  type Prices = seq<Row<int>>

  /** The price of a part, or 0 when PARTS has no such row and the inner join drops it. */
  function PriceOf(parts: Prices, part: int): int {
    if parts == [] then 0
    else if parts[0].id == part then parts[0].data
    else PriceOf(parts[1..], part)
  }

  predicate HasPart(parts: Prices, part: int) {
    exists i | 0 <= i < |parts| :: parts[i].id == part
  }

  /** One row of the joined result. */
  datatype Priced = Priced(quantity: int, price: int)

  /** SELECT ... FROM PARTSINSERVICE INNER JOIN PARTS WHERE SERVICE is the given one. */
  function Select(t: seq<Row<Part>>, parts: Prices, service: int): seq<Priced> {
    if t == [] then []
    else
      var n := |t| - 1;
      Select(t[..n], parts, service) +
      (if t[n].data.service == service && HasPart(parts, t[n].data.part)
       then [Priced(t[n].data.quantity, PriceOf(parts, t[n].data.part))] else [])
  }

  function Cost(r: Priced): int {
    r.price * r.quantity
  }

  /** getPartPrice: nothing when the quantity is no uint64_t. */
  function PartPrice(r: Priced): Option<int> {
    if Readable(r.quantity) then Some(Cost(r)) else None
  }

  function SumPrices(rows: seq<Priced>): int {
    if rows == [] then 0 else SumPrices(rows[..|rows| - 1]) + Cost(rows[|rows| - 1])
  }

  /** The totalPrice loop, which gives up at the first row without a price. */
  method TotalPrice(t: seq<Row<Part>>, parts: Prices, service: int) returns (total: Option<int>)
    ensures total.Some? <==> forall r | r in Select(t, parts, service) :: Readable(r.quantity)
    ensures total.Some? ==> total.value == Total(t, parts, service)
  {
    var result := Select(t, parts, service);
    var totalPrice := 0;
    for i := 0 to |result|
      invariant totalPrice == SumPrices(result[..i])
      invariant forall j | 0 <= j < i :: Readable(result[j].quantity)
    {
      assert result[..i + 1][..i] == result[..i];
      var price := PartPrice(result[i]);
      if price.None? {
        assert result[i] in result;
        return None;
      }
      totalPrice := totalPrice + price.value;
    }
    assert result[..|result|] == result;
    total := Some(totalPrice);
  }

  function Total(t: seq<Row<Part>>, parts: Prices, service: int): int {
    SumPrices(Select(t, parts, service))
  }

  // --- When there is a total

  /** The joined rows are the rows of the service whose part exists. */
  lemma {:induction false} Selected(t: seq<Row<Part>>, parts: Prices, service: int, q: int)
    ensures (exists r :: r in Select(t, parts, service) && r.quantity == q) <==>
            exists i :: 0 <= i < |t| && t[i].data.service == service && HasPart(parts, t[i].data.part)
                        && t[i].data.quantity == q
  {
    hide HasPart, PriceOf;
    if t != [] {
      var n := |t| - 1;
      var before, last := Select(t[..n], parts, service), t[n].data;
      Selected(t[..n], parts, service, q);
      if last.service == service && HasPart(parts, last.part) {
        var row := Priced(last.quantity, PriceOf(parts, last.part));
        var rows := before + [row];
        assert rows[|before|] == row && forall r :: r in rows <==> r in before || r == row;
      }
      if i :| 0 <= i < |t| && t[i].data.service == service && HasPart(parts, t[i].data.part)
              && t[i].data.quantity == q {
        assert i < n ==> t[..n][i] == t[i];
      }
    }
  }

  /** In a good table the total is missing exactly when the count of some existing part on the
      service does not fit 64 bits. */
  lemma TotalMissing(t: seq<Row<Part>>, parts: Prices, service: int)
    requires Good(t)
    ensures (forall r | r in Select(t, parts, service) :: Readable(r.quantity)) <==>
            (forall i | 0 <= i < |parts| :: Count(t, service, parts[i].id) <= Decimal.MAX_U64)
  {
    hide Select, Count, Good;
    if r :| r in Select(t, parts, service) && !Readable(r.quantity) {
      Selected(t, parts, service, r.quantity);
      var i :| 0 <= i < |t| && t[i].data.service == service && HasPart(parts, t[i].data.part)
               && t[i].data.quantity == r.quantity;
      RowIsCount(t, i);
      PositiveQuantity(t, i);
      var j :| 0 <= j < |parts| && parts[j].id == t[i].data.part;
      assert Count(t, service, parts[j].id) > Decimal.MAX_U64;
    }
    if j :| 0 <= j < |parts| && Count(t, service, parts[j].id) > Decimal.MAX_U64 {
      var i := FindPair(t, service, parts[j].id);
      RowIffCount(t, service, parts[j].id);
      RowIsCount(t, i);
      assert HasPart(parts, t[i].data.part);
      Selected(t, parts, service, t[i].data.quantity);
      var r :| r in Select(t, parts, service) && r.quantity == t[i].data.quantity;
      assert !Readable(r.quantity);
    }
  }

  // --- The total as a sum over the parts

  /** Price times count, summed over all parts there are. */
  function Worth(t: seq<Row<Part>>, parts: Prices, service: int): int {
    if parts == [] then 0
    else parts[0].data * Count(t, service, parts[0].id) + Worth(t, parts[1..], service)
  }

  predicate DistinctIds(parts: Prices) {
    forall i, j | 0 <= i < j < |parts| :: parts[i].id != parts[j].id
  }

  /** What one ledger row adds to the worth. */
  function RowWorth(r: Row<Part>, parts: Prices, service: int): int {
    if r.data.service == service then PriceOf(parts, r.data.part) * r.data.quantity else 0
  }

  lemma {:induction false} PriceOfAbsent(parts: Prices, part: int)
    requires forall i | 0 <= i < |parts| :: parts[i].id != part
    ensures PriceOf(parts, part) == 0
  {
    if parts != [] {
      PriceOfAbsent(parts[1..], part);
    }
  }

  lemma PriceTimes(price: int, count: int, change: int)
    ensures price * (count + change) == price * count + price * change
  {
  }

  /** Changing one part's count by `change` changes the worth by its price times that. */
  lemma {:induction false} WorthMoves(t: seq<Row<Part>>, u: seq<Row<Part>>, parts: Prices,
                                      service: int, part: int, change: int)
    requires DistinctIds(parts)
    requires forall p :: Count(u, service, p) == Count(t, service, p) + Change(p == part, change)
    ensures Worth(u, parts, service) == Worth(t, parts, service) + PriceOf(parts, part) * change
  {
    hide Count;
    if parts != [] {
      var first := parts[0];
      WorthMoves(t, u, parts[1..], service, part, change);
      assert Count(u, service, first.id) == Count(t, service, first.id) + Change(first.id == part, change);
      if first.id == part {
        PriceOfAbsent(parts[1..], part);
        PriceTimes(first.data, Count(t, service, part), change);
      }
    }
  }

  lemma {:induction false} WorthOfNothing(parts: Prices, service: int)
    ensures Worth([], parts, service) == 0
  {
    if parts != [] {
      WorthOfNothing(parts[1..], service);
    }
  }

  lemma PriceOfMissing(parts: Prices, part: int)
    requires !HasPart(parts, part)
    ensures PriceOf(parts, part) == 0
  {
    PriceOfAbsent(parts, part);
  }

  lemma SumSnoc(rows: seq<Priced>, r: Priced)
    ensures SumPrices(rows + [r]) == SumPrices(rows) + Cost(r)
  {
    assert (rows + [r])[..|rows|] == rows;
  }

  lemma TotalSnoc(t: seq<Row<Part>>, r: Row<Part>, parts: Prices, service: int)
    ensures Total(t + [r], parts, service) == Total(t, parts, service) + RowWorth(r, parts, service)
  {
    hide SumPrices, HasPart, PriceOf, Cost;
    var u := t + [r];
    assert u[..|t|] == t;
    var rows := Select(t, parts, service);
    if r.data.service == service {
      if HasPart(parts, r.data.part) {
        var priced := Priced(r.data.quantity, PriceOf(parts, r.data.part));
        SumSnoc(rows, priced);
        CostIs(priced);
      } else {
        PriceOfMissing(parts, r.data.part);
        assert rows + [] == rows;
      }
    } else {
      assert rows + [] == rows;
    }
  }

  lemma CostIs(r: Priced)
    ensures Cost(r) == r.price * r.quantity
  {
  }

  /** The loop's total is the worth of the ledger: every part's price times its count. */
  lemma {:induction false} TotalIsWorth(t: seq<Row<Part>>, parts: Prices, service: int)
    requires DistinctIds(parts)
    ensures Total(t, parts, service) == Worth(t, parts, service)
  {
    if t == [] {
      WorthOfNothing(parts, service);
    } else {
      hide Total, Worth, PriceOf;
      var n := |t| - 1;
      var r := t[n];
      assert t == t[..n] + [r];
      TotalIsWorth(t[..n], parts, service);
      TotalSnoc(t[..n], r, parts, service);
      var change := if r.data.service == service then r.data.quantity else 0;
      forall p
        ensures Count(t, service, p) == Count(t[..n], service, p) + Change(p == r.data.part, change)
      {
      }
      WorthMoves(t[..n], t, parts, service, r.data.part, change);
    }
  }

  // --- Totals and the routes

  /** Adding q of a part to a service raises the service's total by q times the part's price,
      and leaves every other service's total alone. */
  lemma AddRaisesTotal(t: seq<Row<Part>>, service: Field<int>, part: Field<int>, quantity: Field<int>,
                       permitted: bool, f: Faults, parts: Prices, s: int)
    requires Good(t) && DistinctIds(parts)
    requires AddSucceeds(service, part, quantity, permitted, f)
    ensures Total(Add(t, service, part, quantity, permitted, f).1, parts, s) ==
            Total(t, parts, s)
            + (if service == Given(s) then PriceOf(parts, part.value) * Asked(quantity) else 0)
  {
    hide Total, Worth, PriceOf, Count, Good, Add;
    var u := Add(t, service, part, quantity, permitted, f).1;
    AddCounts(t, service, part, quantity, permitted, f, s, 0);
    var change := if service == Given(s) then Asked(quantity) else 0;
    forall p
      ensures Count(u, s, p) == Count(t, s, p) + Change(p == part.value, change)
    {
      AddCounts(t, service, part, quantity, permitted, f, s, p);
    }
    WorthMoves(t, u, parts, s, part.value, change);
    TotalIsWorth(t, parts, s);
    TotalIsWorth(u, parts, s);
  }

  /** Removing q of an entry lowers its service's total by min(q, count) times the part's
      price, and leaves every other service's total alone. */
  lemma RemoveLowersTotal(t: seq<Row<Part>>, entry: Field<int>, quantity: Field<int>,
                          permitted: bool, f: Faults, parts: Prices, s: int)
    requires Good(t) && DistinctIds(parts)
    requires RemoveSucceeds(t, entry, quantity, permitted, f)
    ensures entry.Given? && FindId(t, entry.value) < |t|
    ensures var row := t[FindId(t, entry.value)].data;
      Total(Remove(t, entry, quantity, permitted, f).1, parts, s) ==
      Total(t, parts, s)
      - (if row.service == s
         then PriceOf(parts, row.part) * Min(Asked(quantity), Count(t, row.service, row.part)) else 0)
  {
    hide Total, Worth, PriceOf, Count, Good, Remove;
    var u := Remove(t, entry, quantity, permitted, f).1;
    RemoveCounts(t, entry, quantity, permitted, f, s, 0);
    var row := t[FindId(t, entry.value)].data;
    var removed := Min(Asked(quantity), Count(t, row.service, row.part));
    var change := if row.service == s then -removed else 0;
    forall p
      ensures Count(u, s, p) == Count(t, s, p) + Change(p == row.part, change)
    {
      RemoveCounts(t, entry, quantity, permitted, f, s, p);
    }
    WorthMoves(t, u, parts, s, row.part, change);
    TotalIsWorth(t, parts, s);
    TotalIsWorth(u, parts, s);
    assert PriceOf(parts, row.part) * -removed == -(PriceOf(parts, row.part) * removed);
  }
}

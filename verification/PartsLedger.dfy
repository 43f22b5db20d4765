/** Parts on services: rows of PARTSINSERVICE, one route adding to them and one removing. */
module PartsLedger {
  import opened Tables
  import opened Services
  import Decimal

  datatype Part = Part(part: int, quantity: int, service: int)

  // --- The routes

  /** Whether std::from_chars reads this number into a uint64_t. */
  predicate Readable(n: int) {
    0 <= n <= Decimal.MAX_U64
  }

  function Amount(quantity: Field<int>): int {
    if quantity.Given? then quantity.value else 1
  }

  /** The first row for this service and part. */
  function FindPair(t: seq<Row<Part>>, service: int, part: int): (i: nat)
    ensures i <= |t|
    ensures i < |t| ==> t[i].data.service == service && t[i].data.part == part
    ensures forall j | 0 <= j < i :: !(t[j].data.service == service && t[j].data.part == part)
  {
    if t == [] || (t[0].data.service == service && t[0].data.part == part) then 0
    else 1 + FindPair(t[1..], service, part)
  }

  function FindId(t: seq<Row<Part>>, id: int): (i: nat)
    ensures i <= |t|
    ensures i < |t| ==> t[i].id == id
    ensures forall j | 0 <= j < i :: t[j].id != id
  {
    if t == [] || t[0].id == id then 0 else 1 + FindId(t[1..], id)
  }

  /** UPDATE ... SET QUANTITY = QUANTITY + change on one row. */
  function Update(t: seq<Row<Part>>, i: nat, change: int): seq<Row<Part>>
    requires i < |t|
  {
    t[i := Row(t[i].id, t[i].data.(quantity := t[i].data.quantity + change))]
  }

  function RemoveAt(t: seq<Row<Part>>, i: nat): seq<Row<Part>>
    requires i < |t|
  {
    t[..i] + t[i + 1..]
  }

  /** addPartToService. */
  function Add(t: seq<Row<Part>>, service: Field<int>, part: Field<int>, quantity: Field<int>,
               permitted: bool, f: Faults)
    : (Status, seq<Row<Part>>)
  {
    if !service.Given? || !part.Given? then (BadRequest, t)
    else if !permitted then (Forbidden, t)
    else if quantity.Given? && (!Readable(quantity.value) || quantity.value <= 0) then (BadRequest, t)
    else if f.first then (InternalError, t)
    else
      var i := FindPair(t, service.value, part.value);
      if f.second then (InternalError, t)
      else if i < |t| then (Ok, Update(t, i, Amount(quantity)))
      else (Ok, Insert(t, Part(part.value, Amount(quantity), service.value)))
  }

  /** removePartFromService. */
  function Remove(t: seq<Row<Part>>, entry: Field<int>, quantity: Field<int>, permitted: bool, f: Faults)
    : (Status, seq<Row<Part>>)
  {
    if !entry.Given? then (BadRequest, t)
    else if !permitted then (Forbidden, t)
    else if f.first then (InternalError, t)
    else
      var i := FindId(t, entry.value);
      if i == |t| then (NotFound, t)
      else if !Readable(t[i].data.quantity) then (InternalError, t)
      else if quantity.Given? && !Readable(quantity.value) then (BadRequest, t)
      else if Amount(quantity) <= 0 then (BadRequest, t)
      else if f.second then (InternalError, t)
      else if Amount(quantity) >= t[i].data.quantity then (Ok, RemoveAt(t, i))
      else (Ok, Update(t, i, -Amount(quantity)))
  }

  // --- When they succeed

  /** The quantity asked for, one by default. */
  function Asked(quantity: Field<int>): int {
    match quantity
    case Given(n) => n
    case _ => 1
  }

  /** A quantity in the body is positive and fits 64 bits. */
  predicate Fits(quantity: Field<int>) {
    quantity.Given? ==> 0 < quantity.value <= 0xFFFF_FFFF_FFFF_FFFF
  }

  predicate AddSucceeds(service: Field<int>, part: Field<int>, quantity: Field<int>, permitted: bool, f: Faults) {
    service.Given? && part.Given? && permitted && Fits(quantity) && !f.first && !f.second
  }

  /** There is a row with the ID, and its quantity fits 64 bits. */
  predicate HasEntry(t: seq<Row<Part>>, entry: Field<int>) {
    entry.Given? && exists i | 0 <= i < |t| :: t[i].id == entry.value
  }

  predicate Countable(t: seq<Row<Part>>, entry: Field<int>) {
    forall i | 0 <= i < |t| && entry == Given(t[i].id) :: t[i].data.quantity <= 0xFFFF_FFFF_FFFF_FFFF
  }

  predicate RemoveSucceeds(t: seq<Row<Part>>, entry: Field<int>, quantity: Field<int>, permitted: bool, f: Faults) {
    HasEntry(t, entry) && Countable(t, entry) && permitted && Fits(quantity) && !f.first && !f.second
  }

  /** An addition succeeds exactly when it is complete, allowed, of a proper quantity and
      undisturbed, whether or not the service has the part already. */
  lemma AddStatus(t: seq<Row<Part>>, service: Field<int>, part: Field<int>, quantity: Field<int>,
                  permitted: bool, f: Faults)
    ensures var status := Add(t, service, part, quantity, permitted, f).0;
      && (status == Ok <==> AddSucceeds(service, part, quantity, permitted, f))
      && (status == BadRequest <==> !service.Given? || !part.Given? || (permitted && !Fits(quantity)))
      && (status == Forbidden <==> service.Given? && part.Given? && !permitted)
      && status != NotFound && status != Threw
  {
  }

  /** A removal succeeds exactly when its entry is there with a countable quantity, and it is
      allowed, of a proper quantity and undisturbed. */
  lemma RemoveStatus(t: seq<Row<Part>>, entry: Field<int>, quantity: Field<int>, permitted: bool, f: Faults)
    requires Good(t)
    ensures var status := Remove(t, entry, quantity, permitted, f).0;
      && (status == Ok <==> RemoveSucceeds(t, entry, quantity, permitted, f))
      && (status == Forbidden <==> entry.Given? && !permitted)
      && (status == NotFound <==> entry.Given? && permitted && !f.first && !HasEntry(t, entry))
      && (status == BadRequest <==>
            || !entry.Given?
            || (permitted && !f.first && HasEntry(t, entry) && Countable(t, entry) && !Fits(quantity)))
      && status != Threw
  {
    if entry.Given? {
      var i := FindId(t, entry.value);
      if i < |t| {
        PositiveQuantity(t, i);
        forall j | 0 <= j < |t| && t[j].id == entry.value
          ensures j == i
        {
          assert Ascending(t);
        }
      }
    }
  }

  class Ledger {
    var rows: seq<Row<Part>>

    /** At most one row per service and part, every quantity positive. */
    predicate Valid()
      reads this
    {
      Good(rows)
    }

    constructor ()
      ensures Valid() && rows == []
    {
      rows := [];
    }

    method AddPartToService(service: Field<int>, part: Field<int>, quantity: Field<int>, permitted: bool, f: Faults)
      returns (status: Status)
      requires Valid()
      modifies this
      ensures Valid()
      ensures status == Ok <==> AddSucceeds(service, part, quantity, permitted, f)
      ensures status == BadRequest <==> !service.Given? || !part.Given? || (permitted && !Fits(quantity))
      ensures status == Forbidden <==> service.Given? && part.Given? && !permitted
      ensures status == Ok ==> Raised(old(rows), rows, service.value, part.value, Asked(quantity))
      ensures status != Ok ==> rows == old(rows)
      ensures (status, rows) == Add(old(rows), service, part, quantity, permitted, f)
    {
      AddRaises(rows, service, part, quantity, permitted, f);
      AddStatus(rows, service, part, quantity, permitted, f);
      hide Raised, Good, Update, Insert, Fits, AddSucceeds;
      if !(service.Given? && part.Given?) {
        return BadRequest;
      }
      if !permitted {
        return Forbidden;
      }
      if quantity.Given? {
        if !Readable(quantity.value) || quantity.value <= 0 {
          return BadRequest;
        }
      }
      if f.first {
        return InternalError;
      }
      var found := FindPair(rows, service.value, part.value);
      if found != |rows| {
        if f.second {
          return InternalError;
        }
        rows := Update(rows, found, Amount(quantity));
        return Ok;
      }
      if f.second {
        return InternalError;
      }
      rows := Insert(rows, Part(part.value, Amount(quantity), service.value));
      status := Ok;
    }

    method RemovePartFromService(entry: Field<int>, quantity: Field<int>, permitted: bool, f: Faults)
      returns (status: Status)
      requires Valid()
      modifies this
      ensures Valid()
      ensures status == Ok <==> RemoveSucceeds(old(rows), entry, quantity, permitted, f)
      ensures status == Forbidden <==> entry.Given? && !permitted
      ensures status == NotFound <==> entry.Given? && permitted && !f.first && !HasEntry(old(rows), entry)
      ensures status == BadRequest <==>
              || !entry.Given?
              || (permitted && !f.first && HasEntry(old(rows), entry) && Countable(old(rows), entry)
                  && !Fits(quantity))
      ensures status == Ok ==> Lowered(old(rows), rows, entry.value, Asked(quantity))
      ensures status != Ok ==> rows == old(rows)
      ensures (status, rows) == Remove(old(rows), entry, quantity, permitted, f)
    {
      RemoveLowers(rows, entry, quantity, permitted, f);
      RemoveStatus(rows, entry, quantity, permitted, f);
      hide Lowered, Good, Update, RemoveAt, Fits, HasEntry, Countable, RemoveSucceeds;
      if !entry.Given? {
        return BadRequest;
      }
      if !permitted {
        return Forbidden;
      }
      if f.first {
        return InternalError;
      }
      var found := FindId(rows, entry.value);
      if found == |rows| {
        return NotFound;
      }
      var currentQuantity, removedQuantity := rows[found].data.quantity, 1;
      if !Readable(currentQuantity) {
        return InternalError;
      }
      if quantity.Given? {
        if !Readable(quantity.value) {
          return BadRequest;
        }
        removedQuantity := quantity.value;
      }
      if removedQuantity <= 0 {
        return BadRequest;
      }
      if f.second {
        return InternalError;
      }
      if removedQuantity >= currentQuantity {
        rows := RemoveAt(rows, found);
      } else {
        rows := Update(rows, found, -removedQuantity);
      }
      status := Ok;
    }
  }

  // --- The ledger as a count of parts

  function At(r: Row<Part>, service: int, part: int): int {
    if r.data.service == service && r.data.part == part then r.data.quantity else 0
  }

  /** How many of a part the rows put on a service. */
  function Count(t: seq<Row<Part>>, service: int, part: int): int {
    if t == [] then 0 else Count(t[..|t| - 1], service, part) + At(t[|t| - 1], service, part)
  }

  lemma {:induction false} CountConcat(t: seq<Row<Part>>, u: seq<Row<Part>>, service: int, part: int)
    ensures Count(t + u, service, part) == Count(t, service, part) + Count(u, service, part)
    decreases |u|
  {
    hide At;
    if u == [] {
      assert t + u == t;
    } else {
      var n := |u| - 1;
      assert (t + u)[..|t + u| - 1] == t + u[..n];
      CountConcat(t, u[..n], service, part);
    }
  }

  lemma CountOne(r: Row<Part>, service: int, part: int)
    ensures Count([r], service, part) == At(r, service, part)
  {
    assert [r][..0] == [];
  }

  lemma CountAround(t: seq<Row<Part>>, i: nat, service: int, part: int)
    requires i < |t|
    ensures Count(t, service, part) ==
            Count(t[..i], service, part) + At(t[i], service, part) + Count(t[i + 1..], service, part)
  {
    hide Count, At;
    CountConcat(t[..i], [t[i]] + t[i + 1..], service, part);
    CountConcat([t[i]], t[i + 1..], service, part);
    CountOne(t[i], service, part);
    assert t == t[..i] + ([t[i]] + t[i + 1..]);
  }

  /** One row per service and part, every quantity positive. */
  predicate Good(t: seq<Row<Part>>) {
    && Ascending(t)
    && (forall i | 0 <= i < |t| :: t[i].data.quantity > 0)
    && (forall i, j | 0 <= i < j < |t| ::
          t[i].data.service != t[j].data.service || t[i].data.part != t[j].data.part)
  }

  lemma {:induction false} CountAbsent(t: seq<Row<Part>>, service: int, part: int)
    requires forall i | 0 <= i < |t| :: !(t[i].data.service == service && t[i].data.part == part)
    ensures Count(t, service, part) == 0
  {
    if t != [] {
      CountAbsent(t[..|t| - 1], service, part);
    }
  }

  /** In a good table the row is the count. */
  lemma RowIsCount(t: seq<Row<Part>>, i: nat)
    requires Good(t) && i < |t|
    ensures Count(t, t[i].data.service, t[i].data.part) == t[i].data.quantity
  {
    hide Count;
    var s, p := t[i].data.service, t[i].data.part;
    CountAround(t, i, s, p);
    CountAbsent(t[..i], s, p);
    var rest := t[i + 1..];
    forall j | 0 <= j < |rest|
      ensures !(rest[j].data.service == s && rest[j].data.part == p)
    {
      assert rest[j] == t[i + 1 + j];
    }
    CountAbsent(rest, s, p);
  }

  /** There is a row for a part exactly when its count is not zero. */
  lemma RowIffCount(t: seq<Row<Part>>, service: int, part: int)
    requires Good(t)
    ensures FindPair(t, service, part) < |t| <==> Count(t, service, part) > 0
    ensures FindPair(t, service, part) == |t| <==> Count(t, service, part) == 0
  {
    hide Count;
    var i := FindPair(t, service, part);
    if i < |t| {
      RowIsCount(t, i);
    } else {
      CountAbsent(t, service, part);
    }
  }

  function Change(hit: bool, n: int): int {
    if hit then n else 0
  }

  lemma UpdateCounts(t: seq<Row<Part>>, i: nat, change: int, service: int, part: int)
    requires i < |t|
    ensures Count(Update(t, i, change), service, part) ==
            Count(t, service, part) + Change(t[i].data.service == service && t[i].data.part == part, change)
  {
    hide Count;
    var u := Update(t, i, change);
    CountAround(t, i, service, part);
    CountAround(u, i, service, part);
    assert u[..i] == t[..i] && u[i + 1..] == t[i + 1..];
  }

  lemma RemoveAtCounts(t: seq<Row<Part>>, i: nat, service: int, part: int)
    requires i < |t|
    ensures Count(RemoveAt(t, i), service, part) == Count(t, service, part) - At(t[i], service, part)
  {
    hide Count;
    CountAround(t, i, service, part);
    CountConcat(t[..i], t[i + 1..], service, part);
  }

  lemma UpdateGood(t: seq<Row<Part>>, i: nat, change: int)
    requires Good(t) && i < |t| && t[i].data.quantity + change > 0
    ensures Good(Update(t, i, change))
  {
  }

  lemma RemoveAtGood(t: seq<Row<Part>>, i: nat)
    requires Good(t) && i < |t|
    ensures Good(RemoveAt(t, i))
  {
    var u := RemoveAt(t, i);
    assert forall j | 0 <= j < |u| :: u[j] == if j < i then t[j] else t[j + 1];
  }

  lemma InsertGood(t: seq<Row<Part>>, p: Part)
    requires Good(t) && p.quantity > 0 && FindPair(t, p.service, p.part) == |t|
    ensures Good(Insert(t, p))
  {
    var u := Insert(t, p);
    InsertAscends(t, p);
    assert forall j | 0 <= j < |t| :: u[j] == t[j];
    assert u[|t|].data == p;
  }

  /** Adding q of a part raises its count by exactly q, and no other count. */
  lemma AddCounts(t: seq<Row<Part>>, service: Field<int>, part: Field<int>, quantity: Field<int>,
                  permitted: bool, f: Faults, s: int, p: int)
    requires Good(t)
    ensures var r := Add(t, service, part, quantity, permitted, f);
      && Good(r.1)
      && (r.0 == Ok <==> AddSucceeds(service, part, quantity, permitted, f))
      && (r.0 != Ok ==> r.1 == t)
      && (r.0 == Ok ==>
            && Asked(quantity) > 0
            && Count(r.1, s, p) ==
                 Count(t, s, p) + Change(service.value == s && part.value == p, Asked(quantity)))
  {
    hide Count, Good;
    AddStatus(t, service, part, quantity, permitted, f);
    var r := Add(t, service, part, quantity, permitted, f);
    if r.0 == Ok {
      var i := FindPair(t, service.value, part.value);
      if i < |t| {
        PositiveQuantity(t, i);
        UpdateGood(t, i, Amount(quantity));
        UpdateCounts(t, i, Amount(quantity), s, p);
      } else {
        var row := Part(part.value, Amount(quantity), service.value);
        InsertGood(t, row);
        CountConcat(t, [Row(NextId(t), row)], s, p);
        CountOne(Row(NextId(t), row), s, p);
      }
    }
  }

  lemma PositiveQuantity(t: seq<Row<Part>>, i: nat)
    requires Good(t) && i < |t|
    ensures t[i].data.quantity > 0
  {
  }

  function Min(a: int, b: int): int {
    if a <= b then a else b
  }

  /** Removing q of an entry lowers its part's count by min(q, count), and no other count; the
      row goes exactly when the count reaches zero. */
  lemma RemoveCounts(t: seq<Row<Part>>, entry: Field<int>, quantity: Field<int>,
                     permitted: bool, f: Faults, s: int, p: int)
    requires Good(t)
    ensures var r := Remove(t, entry, quantity, permitted, f);
      && Good(r.1)
      && (r.0 == Ok <==> RemoveSucceeds(t, entry, quantity, permitted, f))
      && (r.0 != Ok ==> r.1 == t)
      && (r.0 == Ok ==>
            && entry.Given? && FindId(t, entry.value) < |t| && Asked(quantity) > 0
            && var row := t[FindId(t, entry.value)].data;
            && Count(r.1, s, p) ==
                 Count(t, s, p)
                 - Change(row.service == s && row.part == p, Min(Asked(quantity), Count(t, row.service, row.part)))
            && (FindId(r.1, entry.value) == |r.1| <==> Count(r.1, row.service, row.part) == 0))
  {
    hide Count, Good, RemoveSucceeds;
    RemoveStatus(t, entry, quantity, permitted, f);
    var r := Remove(t, entry, quantity, permitted, f);
    if r.0 == Ok {
      var i := FindId(t, entry.value);
      var row := t[i].data;
      RowIsCount(t, i);
      if Amount(quantity) >= row.quantity {
        RemoveAtGood(t, i);
        RemoveAtCounts(t, i, s, p);
        RemoveAtCounts(t, i, row.service, row.part);
        RemovedId(t, i);
      } else {
        UpdateGood(t, i, -Amount(quantity));
        UpdateCounts(t, i, -Amount(quantity), s, p);
        UpdateCounts(t, i, -Amount(quantity), row.service, row.part);
        assert r.1[i].id == entry.value;
      }
    }
  }

  /** From `t` to `u` the count of one part on one service rose by q, and no other count changed. */
  ghost predicate Raised(t: seq<Row<Part>>, u: seq<Row<Part>>, service: int, part: int, q: int) {
    forall s, p :: Count(u, s, p) == Count(t, s, p) + Change(service == s && part == p, q)
  }

  /** From `t` to `u` the count of the part of one entry on its service fell by q or to zero,
      no other count changed, and the entry is gone exactly when the count is zero. */
  ghost predicate Lowered(t: seq<Row<Part>>, u: seq<Row<Part>>, id: int, q: int) {
    var i := FindId(t, id);
    && i < |t|
    && var row := t[i].data;
    && (forall s, p :: Count(u, s, p) ==
          Count(t, s, p) - Change(row.service == s && row.part == p, Min(q, Count(t, row.service, row.part))))
    && (FindId(u, id) == |u| <==> Count(u, row.service, row.part) == 0)
  }

  lemma AddRaises(t: seq<Row<Part>>, service: Field<int>, part: Field<int>, quantity: Field<int>,
                  permitted: bool, f: Faults)
    requires Good(t)
    ensures var r := Add(t, service, part, quantity, permitted, f);
      && Good(r.1)
      && (r.0 != Ok ==> r.1 == t)
      && (r.0 == Ok ==> Raised(t, r.1, service.value, part.value, Asked(quantity)))
  {
    hide Add, Good, Count;
    AddCounts(t, service, part, quantity, permitted, f, 0, 0);
    var r := Add(t, service, part, quantity, permitted, f);
    if r.0 == Ok {
      forall s, p
        ensures Count(r.1, s, p) ==
                Count(t, s, p) + Change(service.value == s && part.value == p, Asked(quantity))
      {
        AddCounts(t, service, part, quantity, permitted, f, s, p);
      }
    }
  }

  lemma RemoveLowers(t: seq<Row<Part>>, entry: Field<int>, quantity: Field<int>, permitted: bool, f: Faults)
    requires Good(t)
    ensures var r := Remove(t, entry, quantity, permitted, f);
      && Good(r.1)
      && (r.0 != Ok ==> r.1 == t)
      && (r.0 == Ok ==> entry.Given? && Lowered(t, r.1, entry.value, Asked(quantity)))
  {
    hide Remove, Good, Count;
    RemoveCounts(t, entry, quantity, permitted, f, 0, 0);
    var r := Remove(t, entry, quantity, permitted, f);
    if r.0 == Ok {
      var row := t[FindId(t, entry.value)].data;
      forall s, p
        ensures Count(r.1, s, p) ==
                Count(t, s, p)
                - Change(row.service == s && row.part == p, Min(Asked(quantity), Count(t, row.service, row.part)))
      {
        RemoveCounts(t, entry, quantity, permitted, f, s, p);
      }
    }
  }

  lemma RemovedId(t: seq<Row<Part>>, i: nat)
    requires Good(t) && i < |t|
    ensures FindId(RemoveAt(t, i), t[i].id) == |RemoveAt(t, i)|
  {
    var u := RemoveAt(t, i);
    forall j | 0 <= j < |u|
      ensures u[j].id != t[i].id
    {
      assert u[j] == if j < i then t[j] else t[j + 1];
    }
  }

  // --- Runs

  datatype PartCall =
    | AddCall(service: Field<int>, part: Field<int>, quantity: Field<int>, permitted: bool, f: Faults)
    | RemoveCall(entry: Field<int>, quantity: Field<int>, permitted: bool, f: Faults)

  function Step(t: seq<Row<Part>>, c: PartCall): (Status, seq<Row<Part>>) {
    match c
    case AddCall(s, p, q, ok, f) => Add(t, s, p, q, ok, f)
    case RemoveCall(e, q, ok, f) => Remove(t, e, q, ok, f)
  }

  function Run(calls: seq<PartCall>): seq<Row<Part>> {
    if calls == [] then [] else Step(Run(calls[..|calls| - 1]), calls[|calls| - 1]).1
  }

  /** What a call moves of a part, if it can: added as asked, removed as far as there are any. */
  function Moved(t: seq<Row<Part>>, c: PartCall, s: int, p: int): int {
    match c
    case AddCall(service, part, q, ok, f) =>
      if AddSucceeds(service, part, q, ok, f) && service.value == s && part.value == p then Asked(q) else 0
    case RemoveCall(entry, q, ok, f) =>
      if !RemoveSucceeds(t, entry, q, ok, f) then 0
      else
        var i := FindId(t, entry.value);
        if i < |t| && t[i].data.service == s && t[i].data.part == p then -Min(Asked(q), Count(t, s, p)) else 0
  }

  function MovedInAll(calls: seq<PartCall>, s: int, p: int): int {
    if calls == [] then 0
    else
      var before := calls[..|calls| - 1];
      MovedInAll(before, s, p) + Moved(Run(before), calls[|calls| - 1], s, p)
  }

  /** Over every run, with any failures: at most one row per service and part, every quantity
      positive, and every count is exactly what was added less what was removed. */
  lemma {:induction false} RunConserves(calls: seq<PartCall>, s: int, p: int)
    ensures Good(Run(calls))
    ensures Count(Run(calls), s, p) == MovedInAll(calls, s, p) >= 0
  {
    if calls != [] {
      hide Good, Count, Add, Remove, AddSucceeds, RemoveSucceeds;
      var before, c := calls[..|calls| - 1], calls[|calls| - 1];
      RunConserves(before, s, p);
      var t := Run(before);
      match c
      case AddCall(service, part, q, ok, f) => AddCounts(t, service, part, q, ok, f, s, p);
      case RemoveCall(e, q, ok, f) => RemoveCounts(t, e, q, ok, f, s, p);
      CountNotNegative(Run(calls), s, p);
    }
  }

  lemma CountNotNegative(t: seq<Row<Part>>, s: int, p: int)
    requires Good(t)
    ensures Count(t, s, p) >= 0
  {
    hide Count;
    RowIffCount(t, s, p);
  }
}

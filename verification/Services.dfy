/** The service lifecycle: requested, authorised, closed. Every route is a short run of SQL
    statements without a transaction, any of which may fail. */
module Services {
  import opened Tables

  datatype Shared = Shared(vehicle: int, request: string)

  /** ACTIVESERVICEDATA; `service` is an ID of SERVICESHAREDDATA. */
  datatype Active = Active(service: int, authoriser: int)

  /** The tables; open and closed hold IDs of ACTIVESERVICEDATA, not of SERVICESHAREDDATA. */
  datatype Db = Db(
    shared: seq<Row<Shared>>,
    unauthorised: seq<Row<int>>,
    active: seq<Row<Active>>,
    open: seq<Row<int>>,
    closed: seq<Row<int>>)

  const EMPTY: Db := Db([], [], [], [], [])

  /** A body element: missing, present without text, or present. */
  datatype Field<+T> = Absent | Empty | Given(value: T)

  datatype Status = Ok | BadRequest | Forbidden | NotFound | InternalError | Threw

  /** Which of a route's statements fail. */
  datatype Faults = Faults(first: bool, second: bool, third: bool, fourth: bool)

  const NO_FAULTS := Faults(false, false, false, false)

  predicate NoneFails(f: Faults) {
    f == NO_FAULTS
  }

  function ServicesOf(active: seq<Row<Active>>): set<int> {
    set i | 0 <= i < |active| :: active[i].data.service
  }

  // --- The routes as functions of the tables

  /** createRequest. */
  function Create(db: Db, vehicle: Field<int>, request: Field<string>, permitted: bool, f: Faults): (Status, Db) {
    if !vehicle.Given? || !request.Given? then (BadRequest, db)
    else if !permitted then (Forbidden, db)
    else if f.first then (InternalError, db)
    else
      var last := NextId(db.shared);
      var db1 := db.(shared := Insert(db.shared, Shared(vehicle.value, request.value)));
      if f.second || last in Values(db.unauthorised) then (InternalError, db1)
      else (Ok, db1.(unauthorised := Insert(db.unauthorised, last)))
  }

  /** authoriseRequest. A missing ID or quote makes getElement throw, the quote only after
      the row is deleted. */
  function Authorise(db: Db, id: Field<int>, quote: Field<int>, user: int, permitted: bool, f: Faults): (Status, Db) {
    if !id.Given? && !quote.Given? then (BadRequest, db)
    else if !permitted then (Forbidden, db)
    else if id.Absent? then (Threw, db)
    else if f.first then (InternalError, db)
    else if id.Empty? || id.value !in Values(db.unauthorised) then (NotFound, db)
    else if f.second then (InternalError, db)
    else
      var db1 := db.(unauthorised := Delete(db.unauthorised, id.value));
      if quote.Absent? then (Threw, db1)
      else if f.third then (InternalError, db1)
      else
        var last := NextId(db.active);
        var db2 := db1.(active := Insert(db.active, Active(id.value, user)));
        if f.fourth || last in Values(db.open) then (InternalError, db2)
        else (Ok, db2.(open := Insert(db.open, last)))
  }

  /** closeService; the ID is taken as an ID of ACTIVESERVICEDATA, and nothing checks it. */
  function Close(db: Db, id: Field<int>, paid: Field<int>, permitted: bool, f: Faults): (Status, Db) {
    if !id.Given? then (BadRequest, db)
    else if !permitted then (Forbidden, db)
    else if paid.Absent? then (Threw, db)
    else if f.first || id.value in Values(db.closed) then (InternalError, db)
    else
      var db1 := db.(closed := Insert(db.closed, id.value));
      if f.second then (InternalError, db1)
      else (Ok, db1.(open := Delete(db.open, id.value)))
  }

  // --- The routes as they run on the database

  class Database {
    var shared: seq<Row<Shared>>
    var unauthorised: seq<Row<int>>
    var active: seq<Row<Active>>
    var open: seq<Row<int>>
    var closed: seq<Row<int>>
    var lastInsertRowid: int

    function Tables(): Db
      reads this
    {
      Db(shared, unauthorised, active, open, closed)
    }

    /** No failure of any statement ever breaks this. */
    ghost predicate Valid()
      reads this
    {
      Safe(Tables())
    }

    constructor ()
      ensures Valid() && Tables() == EMPTY
    {
      shared, unauthorised, active, open, closed := [], [], [], [], [];
      lastInsertRowid := 0;
    }

    method CreateRequest(vehicle: Field<int>, request: Field<string>, permitted: bool, f: Faults)
      returns (status: Status)
      requires Valid()
      modifies this
      ensures Valid()
      ensures status == Ok <==> vehicle.Given? && request.Given? && permitted && !f.first && !f.second
      ensures status == BadRequest <==> !vehicle.Given? || !request.Given?
      ensures status == Forbidden <==> vehicle.Given? && request.Given? && !permitted
      ensures status == Ok ==> Requested(old(Tables()), Tables(), vehicle.value, request.value)
      ensures Refused(status) ==> Tables() == old(Tables())
      ensures (status, Tables()) == Create(old(Tables()), vehicle, request, permitted, f)
    {
      CreateAdds(Tables(), vehicle, request, permitted, f);
      hide Safe, Requested, Values, Insert, NextId;
      if !(vehicle.Given? && request.Given?) {
        return BadRequest;
      }
      if !permitted {
        return Forbidden;
      }
      if f.first {
        return InternalError;
      }
      lastInsertRowid := NextId(shared);
      shared := Insert(shared, Shared(vehicle.value, request.value));
      if f.second || lastInsertRowid in Values(unauthorised) {
        return InternalError;
      }
      unauthorised := Insert(unauthorised, lastInsertRowid);
      status := Ok;
    }

    method AuthoriseRequest(id: Field<int>, quote: Field<int>, user: int, permitted: bool, f: Faults)
      returns (status: Status)
      requires Valid()
      modifies this
      ensures Valid()
      ensures status == Ok <==> id.Given? && id.value in old(Values(unauthorised)) && !quote.Absent? && permitted
                                && NoneFails(f)
      ensures status == BadRequest <==> !id.Given? && !quote.Given?
      ensures status == Forbidden <==> (id.Given? || quote.Given?) && !permitted
      ensures status == NotFound <==>
              permitted && !f.first
              && ((id.Empty? && quote.Given?) || (id.Given? && id.value !in old(Values(unauthorised))))
      ensures status == Ok ==> Authorised(old(Tables()), Tables(), id.value, user)
      ensures Refused(status) ==> Tables() == old(Tables())
      ensures (status, Tables()) == Authorise(old(Tables()), id, quote, user, permitted, f)
    {
      AuthoriseMoves(Tables(), id, quote, user, permitted, f);
      hide Safe, Authorised, Values, Insert, Delete, NextId, NoneFails, Refused;
      if !id.Given? && !quote.Given? {
        return BadRequest;
      }
      if !permitted {
        return Forbidden;
      }
      if id.Absent? {
        return Threw;
      }
      if f.first {
        return InternalError;
      }
      if id.Empty? || id.value !in Values(unauthorised) {
        return NotFound;
      }
      if f.second {
        return InternalError;
      }
      unauthorised := Delete(unauthorised, id.value);
      if quote.Absent? {
        return Threw;
      }
      if f.third {
        return InternalError;
      }
      lastInsertRowid := NextId(active);
      active := Insert(active, Active(id.value, user));
      if f.fourth || lastInsertRowid in Values(open) {
        return InternalError;
      }
      open := Insert(open, lastInsertRowid);
      status := Ok;
    }

    method CloseService(id: Field<int>, paid: Field<int>, permitted: bool, f: Faults) returns (status: Status)
      requires Valid()
      modifies this
      ensures Valid()
      ensures status == Ok <==> id.Given? && id.value !in old(Values(closed)) && !paid.Absent? && permitted
                                && !f.first && !f.second
      ensures status == BadRequest <==> !id.Given?
      ensures status == Forbidden <==> id.Given? && !permitted
      ensures status == Ok ==> Finished(old(Tables()), Tables(), id.value)
      ensures Refused(status) || status == Threw ==> Tables() == old(Tables())
      ensures (status, Tables()) == Close(old(Tables()), id, paid, permitted, f)
    {
      CloseFinishes(Tables(), id, paid, permitted, f);
      hide Safe, Finished, Values, Insert, Delete;
      if !id.Given? {
        return BadRequest;
      }
      if !permitted {
        return Forbidden;
      }
      if paid.Absent? {
        return Threw;
      }
      if f.first || id.value in Values(closed) {
        return InternalError;
      }
      closed := Insert(closed, id.value);
      if f.second {
        return InternalError;
      }
      open := Delete(open, id.value);
      status := Ok;
    }
  }

  // --- What a call does

  /** From `db` to `r` one service was added with a new ID, carrying what was asked; it is
      unauthorised, and nothing else changed. */
  ghost predicate Requested(db: Db, r: Db, vehicle: int, request: string) {
    var id := |db.shared| + 1;
    && id !in Ids(db.shared) && Ids(r.shared) == Ids(db.shared) + {id}
    && |r.shared| == id && r.shared[..id - 1] == db.shared && r.shared[id - 1] == Row(id, Shared(vehicle, request))
    && id !in Values(db.unauthorised) && Values(r.unauthorised) == Values(db.unauthorised) + {id}
    && r.active == db.active && r.open == db.open && r.closed == db.closed
  }

  /** From `db` to `r` an unauthorised service moved to a new active row, which is open, and
      nothing else changed. */
  ghost predicate Authorised(db: Db, r: Db, service: int, user: int) {
    var row := |db.active| + 1;
    && service in Values(db.unauthorised) && Values(r.unauthorised) == Values(db.unauthorised) - {service}
    && row !in Ids(db.active) && Ids(r.active) == Ids(db.active) + {row}
    && |r.active| == row && r.active[..row - 1] == db.active && r.active[row - 1] == Row(row, Active(service, user))
    && row !in Values(db.open) && Values(r.open) == Values(db.open) + {row}
    && r.shared == db.shared && r.closed == db.closed
  }

  /** From `db` to `r` an ID left the open table, if it was there, for the closed one, and
      nothing else changed. */
  ghost predicate Finished(db: Db, r: Db, id: int) {
    && id !in Values(db.closed) && Values(r.closed) == Values(db.closed) + {id}
    && Values(r.open) == Values(db.open) - {id}
    && r.shared == db.shared && r.unauthorised == db.unauthorised && r.active == db.active
  }

  predicate Refused(status: Status) {
    status == BadRequest || status == Forbidden || status == NotFound
  }

  /** A request succeeds exactly when it is complete and allowed and no statement fails: the
      row ID is never taken already. */
  lemma CreateAdds(db: Db, vehicle: Field<int>, request: Field<string>, permitted: bool, f: Faults)
    requires Safe(db)
    ensures var (status, r) := Create(db, vehicle, request, permitted, f);
      && Safe(r)
      && (status == Ok <==> vehicle.Given? && request.Given? && permitted && !f.first && !f.second)
      && (status == Ok ==> Requested(db, r, vehicle.value, request.value))
      && (status == BadRequest <==> !vehicle.Given? || !request.Given?)
      && (status == Forbidden <==> vehicle.Given? && request.Given? && !permitted)
      && (status == Ok || status == InternalError || (Refused(status) && status != NotFound && r == db))
      && (status != Ok ==> r == db.(shared := r.shared))
      && (status == InternalError ==> if f.first then r == db else Ids(r.shared) == Ids(db.shared) + {|db.shared| + 1})
  {
    hide Ids, Values, Dense, Ascending, Distinct, ServicesOf, DistinctServices;
    CreateSafe(db, vehicle, request, permitted, f);
    DenseAscending(db.shared);
    if vehicle.Given? && request.Given? {
      InsertKeeps(db.shared, Shared(vehicle.value, request.value));
      InsertKeeps(db.unauthorised, NextId(db.shared));
    }
  }

  /** Authorising succeeds exactly when the service waits, a quote is there, it is allowed and
      no statement fails. */
  lemma AuthoriseMoves(db: Db, id: Field<int>, quote: Field<int>, user: int, permitted: bool, f: Faults)
    requires Safe(db)
    ensures var (status, r) := Authorise(db, id, quote, user, permitted, f);
      && Safe(r)
      && (status == Ok <==> id.Given? && id.value in Values(db.unauthorised) && !quote.Absent? && permitted
                            && NoneFails(f))
      && (status == Ok ==> Authorised(db, r, id.value, user))
      && (status == BadRequest <==> !id.Given? && !quote.Given?)
      && (status == Forbidden <==> (id.Given? || quote.Given?) && !permitted)
      && (status == NotFound <==>
            permitted && !f.first
            && ((id.Empty? && quote.Given?) || (id.Given? && id.value !in Values(db.unauthorised))))
      && (status == Threw <==>
            permitted
            && ((id.Absent? && quote.Given?)
                || (id.Given? && id.value in Values(db.unauthorised) && quote.Absent? && !f.first && !f.second)))
      && (Refused(status) ==> r == db)
      && (!id.Given? || f.first || f.second ==> r == db)
      && (id.Given? && (status == Threw || status == InternalError) && !f.first && !f.second ==>
            && Values(r.unauthorised) == Values(db.unauthorised) - {id.value}
            && r.shared == db.shared && r.open == db.open && r.closed == db.closed
            && r.active == if status == Threw || f.third then db.active
                           else db.active + [Row(|db.active| + 1, Active(id.value, user))])
  {
    hide Ids, Values, Dense, Ascending, Distinct, ServicesOf, DistinctServices;
    AuthoriseSafe(db, id, quote, user, permitted, f);
    DenseAscending(db.active);
    if id.Given? {
      DeleteValues(db.unauthorised, id.value);
      InsertKeeps(db.active, Active(id.value, user));
      InsertKeeps(db.open, NextId(db.active));
    }
  }

  /** Closing succeeds exactly when the ID is not closed yet, it is allowed and no statement
      fails, whether or not the ID is that of any service. */
  lemma CloseFinishes(db: Db, id: Field<int>, paid: Field<int>, permitted: bool, f: Faults)
    requires Safe(db)
    ensures var (status, r) := Close(db, id, paid, permitted, f);
      && Safe(r)
      && (status == Ok <==> id.Given? && id.value !in Values(db.closed) && !paid.Absent? && permitted
                            && !f.first && !f.second)
      && (status == Ok ==> Finished(db, r, id.value))
      && (status == BadRequest <==> !id.Given?)
      && (status == Forbidden <==> id.Given? && !permitted)
      && (status == Threw <==> id.Given? && permitted && paid.Absent?)
      && status != NotFound
      && (Refused(status) || status == Threw ==> r == db)
      && (status == InternalError && r != db ==>
            Values(r.closed) == Values(db.closed) + {id.value} && r == db.(closed := r.closed))
  {
    hide Ids, Values, Dense, Ascending, Distinct, ServicesOf, DistinctServices;
    CloseSafe(db, id, paid, permitted, f);
    if id.Given? {
      InsertKeeps(db.closed, id.value);
      DeleteValues(db.open, id.value);
    }
  }

  // --- Runs

  datatype Call =
    | CreateCall(vehicle: Field<int>, request: Field<string>, permitted: bool, f: Faults)
    | AuthoriseCall(id: Field<int>, quote: Field<int>, user: int, permitted: bool, f: Faults)
    | CloseCall(id: Field<int>, paid: Field<int>, permitted: bool, f: Faults)

  function Step(db: Db, c: Call): Db {
    match c
    case CreateCall(v, r, p, f) => Create(db, v, r, p, f).1
    case AuthoriseCall(id, q, u, p, f) => Authorise(db, id, q, u, p, f).1
    case CloseCall(id, paid, p, f) => Close(db, id, paid, p, f).1
  }

  function Run(db: Db, calls: seq<Call>): Db {
    if calls == [] then db else Step(Run(db, calls[..|calls| - 1]), calls[|calls| - 1])
  }

  // --- Safety under any failures

  predicate DistinctServices(active: seq<Row<Active>>) {
    forall i, j | 0 <= i < j < |active| :: active[i].data.service != active[j].data.service
  }

  /** What holds whatever statements fail. */
  ghost predicate Safe(db: Db) {
    && Dense(db.shared) && Dense(db.active)
    && Ascending(db.unauthorised) && Ascending(db.open) && Ascending(db.closed)
    && Distinct(db.unauthorised) && Distinct(db.open) && Distinct(db.closed)
    && DistinctServices(db.active)
    && Values(db.unauthorised) <= Ids(db.shared)
    && ServicesOf(db.active) <= Ids(db.shared)
    && Values(db.unauthorised) !! ServicesOf(db.active)
    && Values(db.open) <= Ids(db.active)
  }

  lemma DenseAscending<T>(t: seq<Row<T>>)
    requires Dense(t)
    ensures Ascending(t) && NextId(t) == |t| + 1
    ensures forall n :: n in Ids(t) <==> 1 <= n <= |t|
  {
    forall n | 1 <= n <= |t|
      ensures n in Ids(t)
    {
      assert t[n - 1] in t && t[n - 1].id == n;
    }
  }

  lemma CreateSafe(db: Db, vehicle: Field<int>, request: Field<string>, permitted: bool, f: Faults)
    requires Safe(db)
    ensures Safe(Create(db, vehicle, request, permitted, f).1)
  {
    hide Ids, Values, Dense, Ascending, Distinct, ServicesOf, DistinctServices;
    var r := Create(db, vehicle, request, permitted, f).1;
    DenseAscending(db.shared);
    if r != db {
      InsertKeeps(db.shared, Shared(vehicle.value, request.value));
      if r.unauthorised != db.unauthorised {
        InsertKeeps(db.unauthorised, NextId(db.shared));
      }
    }
  }

  lemma InsertActive(active: seq<Row<Active>>, a: Active)
    ensures ServicesOf(Insert(active, a)) == ServicesOf(active) + {a.service}
    ensures DistinctServices(active) && a.service !in ServicesOf(active) ==> DistinctServices(Insert(active, a))
  {
    var r := Insert(active, a);
    assert r[|active|].data == a;
    assert forall i | 0 <= i < |active| :: r[i] == active[i];
    forall s
      ensures s in ServicesOf(r) <==> s in ServicesOf(active) || s == a.service
    {
      if s in ServicesOf(active) {
        var i :| 0 <= i < |active| && active[i].data.service == s;
        assert r[i].data.service == s;
      }
      if s == a.service {
        assert r[|active|].data.service == s;
      }
    }
    forall i | 0 <= i < |active|
      ensures r[i].data.service in ServicesOf(active)
    {
      assert active[i].data.service in ServicesOf(active);
    }
  }

  lemma AuthoriseSafe(db: Db, id: Field<int>, quote: Field<int>, user: int, permitted: bool, f: Faults)
    requires Safe(db)
    ensures Safe(Authorise(db, id, quote, user, permitted, f).1)
  {
    hide Ids, Values, Dense, Ascending, Distinct, ServicesOf, DistinctServices;
    var r := Authorise(db, id, quote, user, permitted, f).1;
    DenseAscending(db.active);
    if r != db {
      DeleteKeeps(db.unauthorised, id.value);
      DeleteValues(db.unauthorised, id.value);
      InsertActive(db.active, Active(id.value, user));
      InsertKeeps(db.active, Active(id.value, user));
      if r.open != db.open {
        InsertKeeps(db.open, NextId(db.active));
      }
    }
  }

  lemma CloseSafe(db: Db, id: Field<int>, paid: Field<int>, permitted: bool, f: Faults)
    requires Safe(db)
    ensures Safe(Close(db, id, paid, permitted, f).1)
  {
    hide Ids, Values, Dense, Ascending, Distinct, ServicesOf, DistinctServices;
    var r := Close(db, id, paid, permitted, f).1;
    if r != db {
      InsertKeeps(db.closed, id.value);
      DeleteKeeps(db.open, id.value);
      DeleteValues(db.open, id.value);
    }
  }

  lemma StepSafe(db: Db, c: Call)
    requires Safe(db)
    ensures Safe(Step(db, c))
  {
    hide Safe, Create, Authorise, Close;
    match c
    case CreateCall(v, r, p, f) => CreateSafe(db, v, r, p, f);
    case AuthoriseCall(id, q, u, p, f) => AuthoriseSafe(db, id, q, u, p, f);
    case CloseCall(id, paid, p, f) => CloseSafe(db, id, paid, p, f);
  }

  /** Whatever runs and whatever fails: no service is both unauthorised and active, none has
      two active rows, and every open row names an existing active row. */
  lemma {:induction false} RunSafe(calls: seq<Call>)
    ensures Safe(Run(EMPTY, calls))
  {
    hide Step;
    if calls == [] {
    } else {
      hide Safe;
      RunSafe(calls[..|calls| - 1]);
      StepSafe(Run(EMPTY, calls[..|calls| - 1]), calls[|calls| - 1]);
    }
  }
}

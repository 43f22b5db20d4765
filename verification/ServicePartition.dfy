/** Every service in exactly one place: which calls keep it so, call by call and over runs,
    with any failures. */
module ServicePartition {
  import opened Tables
  import opened Services

  /** Services split into unauthorised and active, active ones into open and closed. */
  ghost predicate Partitioned(db: Db) {
    && Ids(db.shared) == Values(db.unauthorised) + ServicesOf(db.active)
    && Values(db.unauthorised) !! ServicesOf(db.active)
    && Ids(db.active) == Values(db.open) + Values(db.closed)
    && Values(db.open) !! Values(db.closed)
  }

  // --- One call

  /** Whether a request breaks off between its two statements. */
  predicate BreaksOff(vehicle: Field<int>, request: Field<string>, permitted: bool, f: Faults) {
    vehicle.Given? && request.Given? && permitted && !f.first && f.second
  }

  /** A request keeps the partition exactly when it does not break off. */
  lemma CreatePartitions(db: Db, vehicle: Field<int>, request: Field<string>, permitted: bool, f: Faults)
    requires Safe(db) && Partitioned(db)
    ensures Partitioned(Create(db, vehicle, request, permitted, f).1) <==> !BreaksOff(vehicle, request, permitted, f)
  {
    hide Ids, Values, Dense, Ascending, Distinct, ServicesOf, DistinctServices;
    DenseAscending(db.shared);
    if vehicle.Given? && request.Given? && permitted {
      InsertKeeps(db.shared, Shared(vehicle.value, request.value));
      InsertKeeps(db.unauthorised, NextId(db.shared));
      FreshService(db);
    }
  }

  lemma FreshService(db: Db)
    requires Safe(db)
    ensures NextId(db.shared) !in Ids(db.shared)
    ensures NextId(db.shared) !in Values(db.unauthorised) && NextId(db.shared) !in ServicesOf(db.active)
    ensures NextId(db.active) !in Ids(db.active) && NextId(db.active) !in Values(db.open)
  {
    DenseAscending(db.shared);
    DenseAscending(db.active);
  }

  /** Whether authorising gets as far as deleting the row of the service. */
  predicate Takes(db: Db, id: Field<int>, permitted: bool, f: Faults) {
    permitted && id.Given? && id.value in Values(db.unauthorised) && !f.first && !f.second
  }

  /** Whether authorising deletes the row and then throws or fails. */
  predicate LosesService(db: Db, id: Field<int>, quote: Field<int>, permitted: bool, f: Faults) {
    Takes(db, id, permitted, f) && (quote.Absent? || f.third || f.fourth)
  }

  /** Authorising keeps the partition exactly when it does not break off behind the deleted
      row; a request that carries no quote does even when no statement fails. */
  lemma AuthorisePartitions(db: Db, id: Field<int>, quote: Field<int>, user: int, permitted: bool, f: Faults)
    requires Safe(db) && Partitioned(db)
    ensures Partitioned(Authorise(db, id, quote, user, permitted, f).1) <==>
            !LosesService(db, id, quote, permitted, f)
  {
    hide Ids, Values, Dense, Ascending, Distinct, ServicesOf, DistinctServices;
    if Takes(db, id, permitted, f) {
      DeleteKeeps(db.unauthorised, id.value);
      DeleteValues(db.unauthorised, id.value);
      DenseAscending(db.active);
      InsertActive(db.active, Active(id.value, user));
      InsertKeeps(db.active, Active(id.value, user));
      FreshService(db);
      InsertKeeps(db.open, NextId(db.active));
      assert id.value in Ids(db.shared) && id.value !in ServicesOf(db.active);
    }
  }

  /** Whether a close gets as far as its first statement. */
  predicate Closes(db: Db, id: Field<int>, paid: Field<int>, permitted: bool, f: Faults) {
    permitted && id.Given? && !paid.Absent? && !f.first && id.value !in Values(db.closed)
  }

  /** A close that takes effect keeps the partition exactly when its ID is that of an existing
      active row and the second statement does not fail. */
  lemma ClosePartitions(db: Db, id: Field<int>, paid: Field<int>, permitted: bool, f: Faults)
    requires Safe(db) && Partitioned(db)
    ensures Partitioned(Close(db, id, paid, permitted, f).1) <==>
            (Closes(db, id, paid, permitted, f) ==> id.value in Ids(db.active) && !f.second)
  {
    hide Ids, Values, Dense, Ascending, Distinct, ServicesOf, DistinctServices;
    if Closes(db, id, paid, permitted, f) {
      InsertKeeps(db.closed, id.value);
      DeleteKeeps(db.open, id.value);
      DeleteValues(db.open, id.value);
      var r := Close(db, id, paid, permitted, f).1;
      assert id.value in Values(r.closed);
    }
  }

  /** Closing an ID that is already closed changes nothing, whatever fails. */
  lemma CloseTwice(db: Db, id: int, paid: Field<int>, permitted: bool, f: Faults)
    requires id in Values(db.closed)
    ensures Close(db, Given(id), paid, permitted, f).1 == db
  {
  }

  /** A failure inside close leaves the ID in both tables, never in neither. */
  lemma CloseNeverLoses(db: Db, id: int, paid: Field<int>, permitted: bool, f: Faults)
    requires Safe(db)
    ensures var r := Close(db, Given(id), paid, permitted, f).1;
      && Values(r.open) + Values(r.closed) == Values(db.open) + Values(db.closed) + (if r == db then {} else {id})
      && (r != db && f.second && id in Values(db.open) ==> id in Values(r.open) && id in Values(r.closed))
      && (r != db && !f.second ==> id !in Values(r.open) && id in Values(r.closed))
  {
    hide Ids, Values, Dense, Ascending, Distinct, ServicesOf, DistinctServices;
    if id !in Values(db.closed) {
      InsertKeeps(db.closed, id);
      DeleteValues(db.open, id);
    }
  }

  // --- Runs

  /** A call that does not break off between its statements and closes no ID but that of an
      active row. Refused calls are harmless, and so are failures of a first statement. */
  predicate Harmless(db: Db, c: Call) {
    match c
    case CreateCall(v, r, p, f) => !BreaksOff(v, r, p, f)
    case AuthoriseCall(id, q, _, p, f) => !LosesService(db, id, q, p, f)
    case CloseCall(id, paid, p, f) => Closes(db, id, paid, p, f) ==> id.value in Ids(db.active) && !f.second
  }

  /** Every call of the run is harmless in the state it is made in. */
  predicate HarmlessRun(calls: seq<Call>) {
    forall n | 0 <= n < |calls| :: Harmless(Run(EMPTY, calls[..n]), calls[n])
  }

  lemma StepPartitions(db: Db, c: Call)
    requires Safe(db) && Partitioned(db)
    ensures Partitioned(Step(db, c)) <==> Harmless(db, c)
  {
    hide Safe, Partitioned, Create, Authorise, Close, Ids, BreaksOff, LosesService, Closes;
    match c
    case CreateCall(v, r, p, f) => CreatePartitions(db, v, r, p, f);
    case AuthoriseCall(id, q, u, p, f) => AuthorisePartitions(db, id, q, u, p, f);
    case CloseCall(id, paid, p, f) => ClosePartitions(db, id, paid, p, f);
  }

  /** One more call of a run. */
  lemma RunStep(calls: seq<Call>, n: nat)
    requires n < |calls|
    ensures Run(EMPTY, calls[..n + 1]) == Step(Run(EMPTY, calls[..n]), calls[n])
  {
    hide Step;
    assert calls[..n + 1][..n] == calls[..n];
  }

  lemma {:induction false} HarmlessPartitions(calls: seq<Call>, n: nat)
    requires HarmlessRun(calls) && n <= |calls|
    ensures Partitioned(Run(EMPTY, calls[..n]))
  {
    hide Step, Safe, Harmless;
    if n > 0 {
      hide Partitioned, Run;
      HarmlessPartitions(calls, n - 1);
      RunSafe(calls[..n - 1]);
      RunStep(calls, n - 1);
      StepPartitions(Run(EMPTY, calls[..n - 1]), calls[n - 1]);
    }
  }

  /** Over any run with any failures: after every call the services split exactly into
      unauthorised and active and the active rows exactly into open and closed, if and only
      if every call is harmless. */
  lemma RunPartitions(calls: seq<Call>)
    ensures (forall n | 0 <= n <= |calls| :: Partitioned(Run(EMPTY, calls[..n]))) <==> HarmlessRun(calls)
  {
    hide Step, Safe, Harmless, Partitioned, Run;
    if forall n | 0 <= n <= |calls| :: Partitioned(Run(EMPTY, calls[..n])) {
      forall n | 0 <= n < |calls|
        ensures Harmless(Run(EMPTY, calls[..n]), calls[n])
      {
        RunSafe(calls[..n]);
        RunStep(calls, n);
        assert Partitioned(Run(EMPTY, calls[..n])) && Partitioned(Run(EMPTY, calls[..n + 1]));
        StepPartitions(Run(EMPTY, calls[..n]), calls[n]);
      }
    }
    if HarmlessRun(calls) {
      forall n | 0 <= n <= |calls|
        ensures Partitioned(Run(EMPTY, calls[..n]))
      {
        HarmlessPartitions(calls, n);
      }
    }
  }

  /** Harmless, but a close may also fail between its statements. */
  predicate Covering(db: Db, c: Call) {
    match c
    case CloseCall(id, paid, p, f) => Closes(db, id, paid, p, f) ==> id.value in Ids(db.active)
    case _ => Harmless(db, c)
  }

  predicate CoveringRun(calls: seq<Call>) {
    forall n | 0 <= n < |calls| :: Covering(Run(EMPTY, calls[..n]), calls[n])
  }

  /** No service and no active row is lost: every active row is open or closed or both. */
  ghost predicate Covered(db: Db) {
    && Ids(db.active) == Values(db.open) + Values(db.closed)
    && Ids(db.shared) == Values(db.unauthorised) + ServicesOf(db.active)
  }

  lemma CreateCovers(db: Db, v: Field<int>, r: Field<string>, p: bool, f: Faults)
    requires Safe(db) && Covered(db)
    ensures Covered(Create(db, v, r, p, f).1) <==> !BreaksOff(v, r, p, f)
  {
    hide Ids, Values, Dense, Ascending, Distinct, ServicesOf, DistinctServices;
    DenseAscending(db.shared);
    if v.Given? && r.Given? {
      InsertKeeps(db.shared, Shared(v.value, r.value));
      InsertKeeps(db.unauthorised, NextId(db.shared));
      FreshService(db);
    }
  }

  lemma AuthoriseCovers(db: Db, id: Field<int>, q: Field<int>, u: int, p: bool, f: Faults)
    requires Safe(db) && Covered(db)
    ensures Covered(Authorise(db, id, q, u, p, f).1) <==> !LosesService(db, id, q, p, f)
  {
    hide Ids, Values, Dense, Ascending, Distinct, ServicesOf, DistinctServices;
    if Takes(db, id, p, f) {
      DeleteValues(db.unauthorised, id.value);
      DenseAscending(db.active);
      InsertActive(db.active, Active(id.value, u));
      InsertKeeps(db.active, Active(id.value, u));
      FreshService(db);
      InsertKeeps(db.open, NextId(db.active));
      assert id.value in Ids(db.shared) && id.value !in ServicesOf(db.active);
    }
  }

  lemma CloseCovers(db: Db, id: Field<int>, paid: Field<int>, p: bool, f: Faults)
    requires Safe(db) && Covered(db)
    ensures Covered(Close(db, id, paid, p, f).1) <==> (Closes(db, id, paid, p, f) ==> id.value in Ids(db.active))
  {
    hide Ids, Values, Dense, Ascending, Distinct, ServicesOf, DistinctServices;
    if Closes(db, id, paid, p, f) {
      InsertKeeps(db.closed, id.value);
      CloseNeverLoses(db, id.value, paid, p, f);
      assert id.value in Values(Close(db, id, paid, p, f).1.closed);
    }
  }

  lemma StepCovers(db: Db, c: Call)
    requires Safe(db) && Covered(db)
    ensures Covered(Step(db, c)) <==> Covering(db, c)
  {
    hide Safe, Covered, Create, Authorise, Close, Ids, BreaksOff, LosesService, Closes;
    match c
    case CreateCall(v, r, p, f) => CreateCovers(db, v, r, p, f);
    case AuthoriseCall(id, q, u, p, f) => AuthoriseCovers(db, id, q, u, p, f);
    case CloseCall(id, paid, p, f) => CloseCovers(db, id, paid, p, f);
  }

  lemma {:induction false} CoveringCovers(calls: seq<Call>, n: nat)
    requires CoveringRun(calls) && n <= |calls|
    ensures Covered(Run(EMPTY, calls[..n]))
  {
    hide Step, Safe, Covering;
    if n > 0 {
      hide Covered, Run;
      CoveringCovers(calls, n - 1);
      RunSafe(calls[..n - 1]);
      RunStep(calls, n - 1);
      StepCovers(Run(EMPTY, calls[..n - 1]), calls[n - 1]);
    }
  }

  /** Over any run with any failures: after every call every service is unauthorised or active
      and every active row open or closed, if and only if every call is harmless or a close
      that fails between its statements. */
  lemma RunCovers(calls: seq<Call>)
    ensures (forall n | 0 <= n <= |calls| :: Covered(Run(EMPTY, calls[..n]))) <==> CoveringRun(calls)
  {
    hide Step, Safe, Covering, Covered, Run;
    if forall n | 0 <= n <= |calls| :: Covered(Run(EMPTY, calls[..n])) {
      forall n | 0 <= n < |calls|
        ensures Covering(Run(EMPTY, calls[..n]), calls[n])
      {
        RunSafe(calls[..n]);
        RunStep(calls, n);
        assert Covered(Run(EMPTY, calls[..n])) && Covered(Run(EMPTY, calls[..n + 1]));
        StepCovers(Run(EMPTY, calls[..n]), calls[n]);
      }
    }
    if CoveringRun(calls) {
      forall n | 0 <= n <= |calls|
        ensures Covered(Run(EMPTY, calls[..n]))
      {
        CoveringCovers(calls, n);
      }
    }
  }

  // --- Building runs call by call

  lemma RunSnoc(calls: seq<Call>, c: Call)
    ensures Run(EMPTY, calls + [c]) == Step(Run(EMPTY, calls), c)
    ensures HarmlessRun(calls + [c]) <==> HarmlessRun(calls) && Harmless(Run(EMPTY, calls), c)
  {
    hide Step, Harmless, Run;
    var more := calls + [c];
    assert more[..|calls|] == calls && more[..|calls| + 1] == more;
    RunStep(more, |calls|);
    forall n | 0 <= n < |calls|
      ensures more[..n] == calls[..n] && more[n] == calls[n]
    {
    }
    if HarmlessRun(more) {
      forall n | 0 <= n < |calls|
        ensures Harmless(Run(EMPTY, calls[..n]), calls[n])
      {
        assert Harmless(Run(EMPTY, more[..n]), more[n]);
      }
      assert Harmless(Run(EMPTY, more[..|calls|]), more[|calls|]);
    }
  }

  lemma RunNothing()
    ensures Run(EMPTY, []) == EMPTY && HarmlessRun([])
  {
  }

  // --- A run that loses a service

  const NEW := CreateCall(Given(7), Given("oil"), true, NO_FAULTS)
  const UNPRICED := AuthoriseCall(Given(1), Absent, 1, true, NO_FAULTS)

  /** A request, and then an authorisation without a quote: without any failing statement the
      service is in no table any more. */
  lemma ServiceLost()
    ensures LosesService(Run(EMPTY, [NEW]), Given(1), Absent, true, NO_FAULTS)
    ensures var db := Run(EMPTY, [NEW, UNPRICED]);
      1 in Ids(db.shared) && 1 !in Values(db.unauthorised) && 1 !in ServicesOf(db.active)
  {
    var c0: seq<Call> := [];
    RunNothing();
    RunSnoc(c0, NEW);
    assert c0 + [NEW] == [NEW];
    RunSnoc([NEW], UNPRICED);
    assert [NEW] + [UNPRICED] == [NEW, UNPRICED];
    hide Run, HarmlessRun;
    var db := Run(EMPTY, [NEW]);
    var row := Row(1, 1);
    assert db == Db([Row(1, Shared(7, "oil"))], [row], [], [], []);
    assert row in db.unauthorised && db.shared[0] in db.shared;
    DeleteSnoc([], row, 1);
    assert [] + [row] == [row];
  }
}

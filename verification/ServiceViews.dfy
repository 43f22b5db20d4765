/** The two views of a service: the lists of searchServices, which follow the table
    references, and the status of selectService, which looks a shared service ID up in
    OPENSERVICES, where IDs of ACTIVESERVICEDATA are kept. */
module ServiceViews {
  import opened Tables
  import opened Services
  import opened ServicePartition

  datatype View = Unauthorised | Open | Closed | Missing | Failure

  // --- searchServices

  /** The services listed through the active rows that `ids` names. */
  ghost function Listed(active: seq<Row<Active>>, ids: set<int>): set<int> {
    set r | r in active && r.id in ids :: r.data.service
  }

  /** The list or lists in which searchServices shows a service. */
  ghost predicate InList(db: Db, service: int, view: View) {
    match view
    case Unauthorised => service in Values(db.unauthorised) && service in Ids(db.shared)
    case Open => service in Listed(db.active, Values(db.open)) && service in Ids(db.shared)
    case Closed => service in Listed(db.active, Values(db.closed)) && service in Ids(db.shared)
    case _ => false
  }

  // --- selectService

  /** The status of selectService: the row of OPENSERVICES is looked up under the shared
      service ID, and any closed row that is also a shared ID makes the last query succeed.
      `Closed` stands for the response with the data of that query, which is told from the
      others by having no `status` entry. */
  ghost function SelectStatus(db: Db, service: int): View {
    if service !in Ids(db.shared) then Missing
    else if service in Values(db.unauthorised) then Unauthorised
    else if service !in ServicesOf(db.active) then Failure
    else if service in Values(db.open) then Open
    else if exists c :: c in Values(db.closed) && c in Ids(db.shared) && c + service != 0 then Closed
    else Failure
  }

  /** selectService reports the one list in which searchServices shows the service. */
  ghost predicate Agree(db: Db, service: int) {
    forall v: View :: InList(db, service, v) <==> v == SelectStatus(db, service)
  }

  ghost predicate ViewsAgree(db: Db) {
    forall s | s in Ids(db.shared) :: Agree(db, s)
  }

  /** The active row of every open service has the service's own ID. */
  predicate SameIds(db: Db) {
    forall r | r in db.active && r.id in Values(db.open) :: r.data.service == r.id
  }

  /** The database after a close of `id` without failures. */
  function AfterClose(db: Db, id: int): Db {
    Close(db, Given(id), Given(0), true, NO_FAULTS).1
  }

  // --- When they agree

  lemma OneRow(active: seq<Row<Active>>, a: Row<Active>, b: Row<Active>)
    requires DistinctServices(active) && a in active && b in active
    requires a.data.service == b.data.service
    ensures a == b
  {
    var i :| 0 <= i < |active| && active[i] == a;
    var j :| 0 <= j < |active| && active[j] == b;
    assert i == j;
  }

  lemma RowOf(active: seq<Row<Active>>, service: int) returns (r: Row<Active>)
    requires service in ServicesOf(active)
    ensures r in active && r.data.service == service
  {
    var i :| 0 <= i < |active| && active[i].data.service == service;
    r := active[i];
  }

  lemma ServiceOfRow(active: seq<Row<Active>>, r: Row<Active>)
    requires r in active
    ensures r.data.service in ServicesOf(active) && r.id in Ids(active)
  {
    var i :| 0 <= i < |active| && active[i] == r;
  }

  lemma SubsetSize(a: set<int>, b: set<int>)
    requires a <= b
    ensures |a| <= |b|
  {
    assert b == a + (b - a);
  }

  lemma {:induction false} ServicesSize(active: seq<Row<Active>>)
    requires DistinctServices(active)
    ensures |ServicesOf(active)| == |active|
  {
    if active != [] {
      var n := |active| - 1;
      ServicesSize(active[..n]);
      var s := active[n].data.service;
      assert ServicesOf(active) == ServicesOf(active[..n]) + {s};
      assert s !in ServicesOf(active[..n]);
    }
  }

  lemma {:induction false} IdsSize<T>(t: seq<Row<T>>)
    requires Dense(t)
    ensures |Ids(t)| == |t|
  {
    if t != [] {
      var n := |t| - 1;
      IdsSize(t[..n]);
      DenseAscending(t);
      DenseAscending(t[..n]);
      hide Ids, Dense;
      assert Ids(t) == Ids(t[..n]) + {n + 1};
    }
  }

  /** There are no more active rows than services, so an active ID is also a service ID. */
  lemma ActiveIdIsServiceId(db: Db, id: int)
    requires Safe(db) && id in Ids(db.active)
    ensures id in Ids(db.shared) && id > 0
  {
    hide Ids, ServicesOf, DistinctServices;
    ServicesSize(db.active);
    SubsetSize(ServicesOf(db.active), Ids(db.shared));
    IdsSize(db.shared);
    DenseAscending(db.active);
    DenseAscending(db.shared);
  }

  /** What each view says of the service of an active row. */
  lemma ViewsOfRow(db: Db, r: Row<Active>)
    requires Safe(db) && Partitioned(db) && r in db.active
    ensures var s := r.data.service;
      && s in Ids(db.shared)
      && (InList(db, s, Open) <==> r.id in Values(db.open))
      && (InList(db, s, Closed) <==> r.id in Values(db.closed))
      && !InList(db, s, Unauthorised)
      && (s in Values(db.open) ==> SelectStatus(db, s) == Open)
      && (s !in Values(db.open) && r.id in Values(db.closed) ==> SelectStatus(db, s) == Closed)
      && (s !in Values(db.open) ==> SelectStatus(db, s) != Open)
  {
    hide Ids, Values, Dense, Ascending, Distinct, ServicesOf, DistinctServices;
    var s := r.data.service;
    ServiceOfRow(db.active, r);
    forall x | x in db.active && x.data.service == s
      ensures x == r
    {
      OneRow(db.active, x, r);
    }
    ActiveIdIsServiceId(db, r.id);
    DenseAscending(db.shared);
  }

  lemma AgreeOfRow(db: Db, r: Row<Active>)
    requires Safe(db) && Partitioned(db) && r in db.active
    ensures r.id in Values(db.open) ==> (Agree(db, r.data.service) <==> r.data.service in Values(db.open))
    ensures r.id in Values(db.closed) ==> (Agree(db, r.data.service) <==> r.data.service !in Values(db.open))
    ensures r.id in Values(db.open) || r.id in Values(db.closed)
  {
    hide Ids, Values, Dense, Ascending, Distinct, ServicesOf, DistinctServices, SelectStatus;
    ViewsOfRow(db, r);
    ServiceOfRow(db.active, r);
    var s := r.data.service;
    assert !InList(db, s, Missing) && !InList(db, s, Failure);
    var v := SelectStatus(db, s);
    assert InList(db, s, v) || !InList(db, s, v);
    if r.id in Values(db.open) {
      assert InList(db, s, Open) && !InList(db, s, Closed);
    } else {
      assert InList(db, s, Closed) && !InList(db, s, Open);
    }
  }

  /** A service that is in no table, or lost from all but one, is in no list; selectService does
      not find the one and fails on the other. */
  lemma NowhereListed(db: Db, s: int)
    requires Safe(db) && s !in Values(db.unauthorised) && s !in ServicesOf(db.active)
    ensures forall v: View :: !InList(db, s, v)
    ensures SelectStatus(db, s) == if s in Ids(db.shared) then Failure else Missing
  {
    hide Safe, Ids, Values, ServicesOf;
    forall r | r in db.active
      ensures r.data.service != s
    {
      ServiceOfRow(db.active, r);
    }
  }

  lemma AgreeUnauthorised(db: Db, s: int)
    requires Safe(db) && Partitioned(db) && s in Values(db.unauthorised)
    ensures Agree(db, s)
  {
    hide Ids, Values, Dense, Ascending, Distinct, DistinctServices, ServicesOf;
    forall r | r in db.active
      ensures r.data.service != s
    {
      ServiceOfRow(db.active, r);
    }
  }

  /** When the open services' IDs coincide, the views agree on every service. */
  lemma SameIdsAgree(db: Db)
    requires Safe(db) && Partitioned(db) && SameIds(db)
    ensures ViewsAgree(db)
  {
    hide Ids, Values, Dense, Ascending, Distinct, DistinctServices, ServicesOf, Agree;
    forall s | s in Ids(db.shared)
      ensures Agree(db, s)
    {
      if s in Values(db.unauthorised) {
        AgreeUnauthorised(db, s);
      } else {
        var r := RowOf(db.active, s);
        AgreeOfRow(db, r);
        if r.id !in Values(db.open) && s in Values(db.open) {
          var o := RowWithId(db.active, s);
          OneRow(db.active, o, r);
        }
      }
    }
  }

  lemma RowWithId(active: seq<Row<Active>>, id: int) returns (r: Row<Active>)
    requires id in Ids(active)
    ensures r in active && r.id == id
  {
    r :| r in active && r.id == id;
  }

  lemma AfterCloseShape(db: Db, id: int)
    requires Safe(db) && Partitioned(db) && id in Values(db.open)
    ensures var db' := AfterClose(db, id);
      && Safe(db') && Partitioned(db')
      && db'.active == db.active && db'.shared == db.shared
      && Values(db'.open) == Values(db.open) - {id}
  {
    hide Ids, Values, Dense, Ascending, Distinct, DistinctServices, ServicesOf;
    CloseSafe(db, Given(id), Given(0), true, NO_FAULTS);
    ClosePartitions(db, Given(id), Given(0), true, NO_FAULTS);
    DeleteValues(db.open, id);
  }

  /** The views agree on every service if and only if every active row's own ID and the ID of
      its service are open together or not at all. */
  lemma ViewsAgreeExactly(db: Db)
    requires Safe(db) && Partitioned(db)
    ensures ViewsAgree(db) <==>
            forall r | r in db.active :: r.id in Values(db.open) <==> r.data.service in Values(db.open)
  {
    hide Safe, Partitioned, Ids, Values, Agree;
    forall r | r in db.active
      ensures Agree(db, r.data.service) <==> (r.id in Values(db.open) <==> r.data.service in Values(db.open))
    {
      AgreeOfRow(db, r);
      OpenNotClosed(db, r.id);
    }
    if ViewsAgree(db) {
      forall r | r in db.active
        ensures r.id in Values(db.open) <==> r.data.service in Values(db.open)
      {
        RowShared(db, r);
      }
    }
    if forall r | r in db.active :: r.id in Values(db.open) <==> r.data.service in Values(db.open) {
      forall s | s in Ids(db.shared)
        ensures Agree(db, s)
      {
        ActiveOrAgree(db, s);
      }
    }
  }

  lemma OpenNotClosed(db: Db, id: int)
    requires Partitioned(db)
    ensures !(id in Values(db.open) && id in Values(db.closed))
  {
  }

  /** A service on which the views may disagree has an active row. */
  lemma ActiveOrAgree(db: Db, s: int)
    requires Safe(db) && Partitioned(db) && s in Ids(db.shared)
    ensures Agree(db, s) || exists r :: r in db.active && r.data.service == s
  {
    hide Safe, Ids, Values, Agree, ServicesOf;
    if s in Values(db.unauthorised) {
      AgreeUnauthorised(db, s);
    } else {
      var r := RowOf(db.active, s);
    }
  }

  /** The views agree, whichever open service is closed next. */
  ghost predicate StayAgreeing(db: Db) {
    ViewsAgree(db) && forall id | id in Values(db.open) :: ViewsAgree(AfterClose(db, id))
  }

  /** The views agree, and keep agreeing whichever open service is closed next, if and only
      if every open service was given the service's own ID as its active ID. */
  lemma ViewsStayAgreeing(db: Db)
    requires Safe(db) && Partitioned(db)
    ensures StayAgreeing(db) <==> SameIds(db)
  {
    hide Safe, Partitioned, Ids, Values, Agree, AfterClose;
    if SameIds(db) {
      SameIdsAgree(db);
      forall id | id in Values(db.open)
        ensures ViewsAgree(AfterClose(db, id))
      {
        AfterCloseShape(db, id);
        SameIdsAgree(AfterClose(db, id));
      }
    } else {
      var r :| r in db.active && r.id in Values(db.open) && r.data.service != r.id;
      var db' := AfterClose(db, r.id);
      AfterCloseShape(db, r.id);
      AgreeOfRow(db, r);
      AgreeOfRow(db', r);
      RowShared(db, r);
    }
  }

  lemma RowShared(db: Db, r: Row<Active>)
    requires Safe(db) && r in db.active
    ensures r.data.service in Ids(db.shared)
  {
    ServiceOfRow(db.active, r);
  }

  // --- Runs

  /** Whether a call makes a waiting service active. */
  predicate Activates(db: Db, c: Call) {
    c.AuthoriseCall? && Takes(db, c.id, c.permitted, c.f) && !c.quote.Absent? && !c.f.third
  }

  /** A call that activates, if any service, the one next in the order of creation. Calls that
      activate none are in order. */
  predicate InOrder(db: Db, c: Call) {
    Activates(db, c) ==> c.id.value == NextId(db.active)
  }

  predicate InOrderRun(calls: seq<Call>) {
    forall n | 0 <= n < |calls| :: InOrder(Run(EMPTY, calls[..n]), calls[n])
  }

  predicate AllSame(active: seq<Row<Active>>) {
    forall r | r in active :: r.data.service == r.id
  }

  /** The active rows after a call: the same, or one more. */
  lemma ActiveAfter(db: Db, c: Call)
    ensures Step(db, c).active == if Activates(db, c) then Insert(db.active, Active(c.id.value, c.user)) else db.active
  {
  }

  lemma StepSame(db: Db, c: Call)
    ensures AllSame(Step(db, c).active) <==> AllSame(db.active) && InOrder(db, c)
  {
    hide Step, Values;
    ActiveAfter(db, c);
    if Activates(db, c) {
      InsertRows(db.active, Active(c.id.value, c.user));
    }
  }

  lemma {:induction false} InOrderSame(calls: seq<Call>, n: nat)
    requires InOrderRun(calls) && n <= |calls|
    ensures AllSame(Run(EMPTY, calls[..n]).active)
  {
    hide Step, InOrder;
    if n > 0 {
      hide Run, AllSame;
      InOrderSame(calls, n - 1);
      RunStep(calls, n - 1);
      StepSame(Run(EMPTY, calls[..n - 1]), calls[n - 1]);
    }
  }

  /** A harmless call out of order makes an open service whose active ID is not its own. */
  lemma OutOfOrder(db: Db, c: Call)
    requires Safe(db) && Harmless(db, c) && !InOrder(db, c)
    ensures !SameIds(Step(db, c))
  {
    hide Ids, Values, Dense, Ascending, Distinct, ServicesOf, DistinctServices;
    FreshService(db);
    AuthoriseMoves(db, c.id, c.quote, c.user, c.permitted, c.f);
    var r := Step(db, c);
    DenseAscending(db.active);
    InsertKeeps(db.open, NextId(db.active));
    var row := Row(NextId(db.active), Active(c.id.value, c.user));
    ActiveAfter(db, c);
    InsertRows(db.active, row.data);
    assert row in r.active && row.id in Values(r.open);
  }

  /** Over any harmless run: the views agree after every call, and would after any close, if
      and only if services became active in the order of their creation. */
  lemma InOrderViewsAgree(calls: seq<Call>)
    requires HarmlessRun(calls)
    ensures (forall n | 0 <= n <= |calls| :: StayAgreeing(Run(EMPTY, calls[..n]))) <==> InOrderRun(calls)
  {
    hide Run, Safe, Partitioned, Step, StayAgreeing, InOrder, Harmless, SameIds, AllSame;
    forall n | 0 <= n <= |calls|
      ensures StayAgreeing(Run(EMPTY, calls[..n])) <==> SameIds(Run(EMPTY, calls[..n]))
    {
      RunSafe(calls[..n]);
      HarmlessPartitions(calls, n);
      ViewsStayAgreeing(Run(EMPTY, calls[..n]));
    }
    if InOrderRun(calls) {
      forall n | 0 <= n <= |calls|
        ensures StayAgreeing(Run(EMPTY, calls[..n]))
      {
        InOrderSame(calls, n);
        AllSameSameIds(Run(EMPTY, calls[..n]));
      }
    }
    if forall n | 0 <= n <= |calls| :: StayAgreeing(Run(EMPTY, calls[..n])) {
      forall n | 0 <= n < |calls|
        ensures InOrder(Run(EMPTY, calls[..n]), calls[n])
      {
        RunSafe(calls[..n]);
        RunStep(calls, n);
        assert StayAgreeing(Run(EMPTY, calls[..n + 1]));
        if !InOrder(Run(EMPTY, calls[..n]), calls[n]) {
          OutOfOrder(Run(EMPTY, calls[..n]), calls[n]);
        }
      }
    }
  }

  lemma AllSameSameIds(db: Db)
    requires AllSame(db.active)
    ensures SameIds(db)
  {
  }

  // --- A run that shows them disagree

  const SECOND := AuthoriseCall(Given(2), Given(50), 1, true, NO_FAULTS)
  const FIRST := AuthoriseCall(Given(1), Given(50), 1, true, NO_FAULTS)
  const FINISH := CloseCall(Given(1), Given(50), true, NO_FAULTS)
  const OUT_OF_ORDER: seq<Call> := [] + [NEW] + [NEW] + [SECOND] + [FIRST] + [FINISH]

  const SHARED := [Row(1, Shared(7, "oil")), Row(2, Shared(7, "oil"))]
  const REVERSED := [Row(1, Active(2, 1)), Row(2, Active(1, 1))]

  lemma TwoRequests()
    ensures Step(Step(EMPTY, NEW), NEW) == Db(SHARED, [Row(1, 1), Row(2, 2)], [], [], [])
  {
  }

  lemma SecondFirst(db: Db)
    requires db == Db(SHARED, [Row(1, 1), Row(2, 2)], [], [], [])
    ensures Step(db, SECOND) == Db(SHARED, [Row(1, 1)], [Row(1, Active(2, 1))], [Row(1, 1)], [])
  {
    assert Row(2, 2) in db.unauthorised;
    assert db.unauthorised == [] + [Row(1, 1)] + [Row(2, 2)];
    DeleteSnoc([] + [Row(1, 1)], Row(2, 2), 2);
    DeleteSnoc([], Row(1, 1), 2);
  }

  lemma FirstSecond(db: Db)
    requires db == Db(SHARED, [Row(1, 1)], [Row(1, Active(2, 1))], [Row(1, 1)], [])
    ensures Step(db, FIRST) == Db(SHARED, [], REVERSED, [Row(1, 1), Row(2, 2)], [])
  {
    assert Row(1, 1) in db.unauthorised;
    assert db.unauthorised == [] + [Row(1, 1)];
    DeleteSnoc([], Row(1, 1), 1);
  }

  lemma FirstClosed(db: Db)
    requires db == Db(SHARED, [], REVERSED, [Row(1, 1), Row(2, 2)], [])
    ensures Step(db, FINISH) == Db(SHARED, [], REVERSED, [Row(2, 2)], [Row(1, 1)])
    ensures 1 in Ids(db.active)
  {
    assert REVERSED[0] in db.active;
    assert db.open == [] + [Row(1, 1)] + [Row(2, 2)];
    DeleteSnoc([] + [Row(1, 1)], Row(2, 2), 1);
    DeleteSnoc([], Row(1, 1), 1);
  }

  lemma Disagreeing(db: Db)
    requires db == Db(SHARED, [], REVERSED, [Row(2, 2)], [Row(1, 1)])
    ensures InList(db, 2, Closed) && SelectStatus(db, 2) == Open
  {
    assert SHARED[1] in db.shared && REVERSED[0] in db.active;
    assert db.closed[0] in db.closed && db.open[0] in db.open;
    assert db.active[0].data.service == 2;
  }

  /** Two requests, authorised in reverse order, and then the first active row closed: service
      2 is closed and listed so, but selectService reports it as open. */
  lemma ViewsDisagree()
    ensures HarmlessRun(OUT_OF_ORDER)
    ensures InList(Run(EMPTY, OUT_OF_ORDER), 2, Closed)
    ensures SelectStatus(Run(EMPTY, OUT_OF_ORDER), 2) == Open
  {
    hide Step, Run, HarmlessRun, InList, SelectStatus;
    var c0: seq<Call> := [];
    RunNothing();
    RunSnoc(c0, NEW);
    RunSnoc(c0 + [NEW], NEW);
    RunSnoc(c0 + [NEW] + [NEW], SECOND);
    RunSnoc(c0 + [NEW] + [NEW] + [SECOND], FIRST);
    RunSnoc(c0 + [NEW] + [NEW] + [SECOND] + [FIRST], FINISH);
    TwoRequests();
    SecondFirst(Run(EMPTY, c0 + [NEW] + [NEW]));
    FirstSecond(Run(EMPTY, c0 + [NEW] + [NEW] + [SECOND]));
    FirstClosed(Run(EMPTY, c0 + [NEW] + [NEW] + [SECOND] + [FIRST]));
    Disagreeing(Run(EMPTY, OUT_OF_ORDER));
  }
}

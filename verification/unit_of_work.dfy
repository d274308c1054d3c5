/** The work handed to a unit of work's `do`: a script of repository calls made
    through the unit of work's current transaction, aggregates registered with
    it, and possibly an exception, after which nothing more runs. Aggregates
    are labelled by values of `A`. */
module Work {
  import opened Wrappers
  import opened OrderedSet
  import Database

  datatype Step<A> =
    | Upsert(key: string, row: string)
    | Destroy(key: string)
    | AddAggregate(aggregate: A)
    | Raise(message: string)

  /** The steps, and what the work resolves to when none of them throws. */
  datatype Work<A, T> = Work(steps: seq<Step<A>>, result: T)

  /** Why `do`, `commit` or `rollback` rejected. */
  datatype UowError =
    | NoTransactionStarted
    | Raised(message: string)
    | Finished(db_error: Database.DbError)
  {
    function Message(): string {
      match this
      case NoTransactionStarted => "No transaction started"
      case Raised(message) => message
      case Finished(_) => "Transaction cannot be used after it has finished"
    }
  }

  /** The writes the steps make before the first exception, in order. */
  function Writes<A>(steps: seq<Step<A>>): seq<Database.Write>
    decreases |steps|
  {
    if |steps| == 0 then []
    else
      match steps[0]
      case Upsert(key, row) => [Database.WriteRow(key, row)] + Writes(steps[1..])
      case Destroy(key) => [Database.DeleteRow(key)] + Writes(steps[1..])
      case AddAggregate(_) => Writes(steps[1..])
      case Raise(_) => []
  }

  /** The aggregates the steps register before the first exception, in order. */
  function Added<A>(steps: seq<Step<A>>): seq<A>
    decreases |steps|
  {
    if |steps| == 0 then []
    else
      match steps[0]
      case AddAggregate(a) => [a] + Added(steps[1..])
      case Raise(_) => []
      case _ => Added(steps[1..])
  }

  /** The message of the first exception the steps throw, if any. */
  function FirstRaise<A>(steps: seq<Step<A>>): Option<string>
    decreases |steps|
  {
    if |steps| == 0 then None
    else if steps[0].Raise? then Some(steps[0].message)
    else FirstRaise(steps[1..])
  }

  /** `add` of each aggregate in turn to an insertion-ordered set. */
  function AddAll<A(==, !new)>(aggs: seq<A>, more: seq<A>): (r: seq<A>)
    ensures aggs <= r
    ensures forall a :: a in r <==> a in aggs || a in more
    ensures NoDup(aggs) ==> NoDup(r)
    decreases |more|
  {
    if |more| == 0 then aggs else AddAll(Insert(aggs, more[0]), more[1..])
  }

  /** The state the steps leave, and how they ended. */
  datatype Run<A> = Run(db: Database.Db, aggregates: seq<A>, outcome: Outcome<UowError>)

  /** The steps run against `db`, writing through `handle` (directly to the
      committed rows when there is none). A write through a finished
      transaction throws, as Sequelize does. */
  function RunSteps<A(==, !new)>(db: Database.Db, handle: Option<Database.Tx>, aggs: seq<A>, steps: seq<Step<A>>)
    : (run: Run<A>)
    ensures run.db.next_tx == db.next_tx
    ensures aggs <= run.aggregates && (NoDup(aggs) ==> NoDup(run.aggregates))
    ensures handle.None? || handle.value in db.open ==>
              && run.aggregates == AddAll(aggs, Added(steps))
              && run.outcome == (if FirstRaise(steps).Some? then Fail(Raised(FirstRaise(steps).value)) else Pass)
    ensures handle.None? ==>
              run.db == db.(committed := Database.Apply(db.committed, Writes(steps)))
    ensures handle.Some? && handle.value in db.open ==>
              run.db == db.(open := db.open[handle.value := db.open[handle.value] + Writes(steps)])
    decreases |steps|
  {
    assert Writes(steps) == [] && handle.Some? && handle.value in db.open ==>
        db.open[handle.value := db.open[handle.value] + Writes(steps)] == db.open by {
      if Writes(steps) == [] && handle.Some? && handle.value in db.open {
        assert db.open[handle.value] + Writes(steps) == db.open[handle.value];
      }
    }
    if |steps| == 0 then
      Run(db, aggs, Pass)
    else
      match steps[0]
      case Raise(message) => Run(db, aggs, Fail(Raised(message)))
      case AddAggregate(a) => RunSteps(db, handle, Insert(aggs, a), steps[1..])
      case Upsert(key, row) => RunWrite(db, handle, aggs, steps, Database.WriteRow(key, row))
      case Destroy(key) => RunWrite(db, handle, aggs, steps, Database.DeleteRow(key))
  }

  /** The first step, a write `w`, then the rest. */
  function RunWrite<A(==, !new)>(db: Database.Db, handle: Option<Database.Tx>, aggs: seq<A>,
                                 steps: seq<Step<A>>, w: Database.Write): (run: Run<A>)
    requires |steps| > 0 && Writes(steps) == [w] + Writes(steps[1..])
    requires Added(steps) == Added(steps[1..]) && FirstRaise(steps) == FirstRaise(steps[1..])
    ensures run.db.next_tx == db.next_tx
    ensures aggs <= run.aggregates && (NoDup(aggs) ==> NoDup(run.aggregates))
    ensures handle.None? || handle.value in db.open ==>
              && run.aggregates == AddAll(aggs, Added(steps))
              && run.outcome == (if FirstRaise(steps).Some? then Fail(Raised(FirstRaise(steps).value)) else Pass)
    ensures handle.None? ==>
              run.db == db.(committed := Database.Apply(db.committed, Writes(steps)))
    ensures handle.Some? && handle.value in db.open ==>
              run.db == db.(open := db.open[handle.value := db.open[handle.value] + Writes(steps)])
    decreases |steps|, 0
  {
    match Database.WriteIn(db, handle, w)
    case Failure(e) => Run(db, aggs, Fail(Finished(e)))
    case Success(db1) =>
      WriteThenRest(db, handle, w, Writes(steps[1..]));
      RunSteps(db1, handle, aggs, steps[1..])
  }

  /** A write through a usable handle followed by the writes `ws` leaves the
      database as the writes `[w] + ws` do. */
  lemma WriteThenRest(db: Database.Db, handle: Option<Database.Tx>, w: Database.Write, ws: seq<Database.Write>)
    requires handle.None? || handle.value in db.open
    ensures Database.WriteIn(db, handle, w).Success?
    ensures var db1 := Database.WriteIn(db, handle, w).value;
            && db1.next_tx == db.next_tx
            && (handle.None? ==>
                  db1.(committed := Database.Apply(db1.committed, ws))
                  == db.(committed := Database.Apply(db.committed, [w] + ws)))
            && (handle.Some? ==>
                  db1.(open := db1.open[handle.value := db1.open[handle.value] + ws])
                  == db.(open := db.open[handle.value := db.open[handle.value] + ([w] + ws)]))
  {
    if handle.None? {
      assert ([w] + ws)[0] == w && ([w] + ws)[1..] == ws;
    } else {
      var t := handle.value;
      assert db.open[t] + [w] + ws == db.open[t] + ([w] + ws);
    }
  }
}

/** `UnitOfWorkSequelize`: a nullable transaction handle and the set of
    aggregates touched, over a database. */
module UnitOfWorkSequelize {
  import opened Wrappers
  import opened OrderedSet
  import opened Work
  import Database

  datatype Uow<A> = Uow(transaction: Option<Database.Tx>, aggregate_roots: seq<A>)

  /** The unit of work together with the database it drives. */
  datatype State<A> = State(db: Database.Db, uow: Uow<A>)

  /** A new unit of work: no transaction and no aggregates. */
  function New<A>(db: Database.Db): (s: State<A>)
    ensures s.db == db && s.uow.transaction.None? && s.uow.aggregate_roots == []
  {
    State(db, Uow(None, []))
  }

  /** `start()`: a transaction is begun only when none is active. */
  function Start<A>(s: State<A>): (r: State<A>)
    ensures r.uow.transaction.Some?
    ensures r.uow.aggregate_roots == s.uow.aggregate_roots && r.db.committed == s.db.committed
    ensures s.uow.transaction.Some? ==> r == s
    ensures s.uow.transaction.None? ==>
              && r.uow.transaction.value == s.db.next_tx
              && r.db.open == s.db.open[s.db.next_tx := []]
    ensures s.db.Valid() ==> r.db.Valid()
    ensures s.db.Valid() && s.uow.transaction.None? ==> r.uow.transaction.value in r.db.open
  {
    if s.uow.transaction.Some? then s
    else
      var (db, t) := Database.Begin(s.db);
      State(db, s.uow.(transaction := Some(t)))
  }

  /** A second `start` keeps the transaction the first one began. */
  lemma StartIdempotent<A>(s: State<A>)
    ensures Start(Start(s)) == Start(s)
  {
  }

  /** `validateTransaction()`. */
  function ValidateTransaction<A>(s: State<A>): (r: Outcome<UowError>)
    ensures r.Pass? <==> s.uow.transaction.Some?
    ensures r.Fail? ==> r.error == NoTransactionStarted && r.error.Message() == "No transaction started"
  {
    if s.uow.transaction.None? then Fail(NoTransactionStarted) else Pass
  }

  /** `commit()`: without a transaction it throws "No transaction started";
      otherwise the transaction commits and the handle is cleared. If the
      commit itself rejects, the handle is kept. A rejection changes nothing. */
  function Commit<A>(s: State<A>): (r: Result<State<A>, UowError>)
    ensures s.uow.transaction.None? ==> r == Failure(NoTransactionStarted)
    ensures r.Success? <==> s.uow.transaction.Some? && s.uow.transaction.value in s.db.open
    ensures r.Success? ==>
              var t := s.uow.transaction.value;
              && r.value.uow == s.uow.(transaction := None)
              && r.value.db.committed == Database.Apply(s.db.committed, s.db.open[t])
              && r.value.db.open == s.db.open - {t}
  {
    match ValidateTransaction(s)
    case Fail(e) => Failure(e)
    case Pass =>
      var db :- MapError(Database.Commit(s.db, s.uow.transaction.value));
      Success(State(db, s.uow.(transaction := None)))
  }

  /** `rollback()`: as `commit`, but the transaction's writes are dropped. */
  function Rollback<A>(s: State<A>): (r: Result<State<A>, UowError>)
    ensures s.uow.transaction.None? ==> r == Failure(NoTransactionStarted)
    ensures r.Success? <==> s.uow.transaction.Some? && s.uow.transaction.value in s.db.open
    ensures r.Success? ==>
              && r.value.uow == s.uow.(transaction := None)
              && r.value.db.committed == s.db.committed
              && r.value.db.open == s.db.open - {s.uow.transaction.value}
  {
    match ValidateTransaction(s)
    case Fail(e) => Failure(e)
    case Pass =>
      var db :- MapError(Database.Rollback(s.db, s.uow.transaction.value));
      Success(State(db, s.uow.(transaction := None)))
  }

  function MapError<T>(r: Result<T, Database.DbError>): (r': Result<T, UowError>)
    ensures r'.Success? <==> r.Success?
    ensures r.Success? ==> r'.value == r.value
  {
    match r
    case Success(v) => Success(v)
    case Failure(e) => Failure(Finished(e))
  }

  /** `getTransaction()`. */
  function GetTransaction<A>(s: State<A>): (t: Option<Database.Tx>)
    ensures t.Some? <==> ValidateTransaction(s).Pass?
    ensures t.Some? ==> Start(s).uow.transaction == t
  {
    s.uow.transaction
  }

  /** `do(work)`. With a transaction already active the work runs in it and the
      handle is then cleared without committing. Otherwise the work runs in a
      managed transaction, exposed as the handle meanwhile, which commits when
      the work resolves and rolls back (rollback errors ignored) when it
      rejects. On a rejection the handle is cleared and the work's own error
      is rethrown; an inherited transaction is also sent a rollback whose
      result nobody waits for. The aggregates registered are never cleared. */
  function Do<A(==, !new), T>(s: State<A>, work: Work<A, T>): (r: (State<A>, Result<T, UowError>))
    ensures r.0.uow.transaction.None?
    ensures s.uow.aggregate_roots <= r.0.uow.aggregate_roots
    ensures NoDup(s.uow.aggregate_roots) ==> NoDup(r.0.uow.aggregate_roots)
    ensures r.1.Success? ==> r.1.value == work.result
  {
    match s.uow.transaction
    case Some(t) =>
      var run := RunSteps(s.db, Some(t), s.uow.aggregate_roots, work.steps);
      var after := Uow(None, run.aggregates);
      (match run.outcome
       case Pass => (State(run.db, after), Success(work.result))
       case Fail(error) =>
         var db := match Database.Rollback(run.db, t)
                   case Success(db') => db'
                   case Failure(_) => run.db;
         (State(db, after), Failure(error)))
    case None =>
      var (db1, t) := Database.Begin(s.db);
      var run := RunSteps(db1, Some(t), s.uow.aggregate_roots, work.steps);
      var after := Uow(None, run.aggregates);
      match run.outcome
      case Pass =>
        (match Database.Commit(run.db, t)
         case Success(db2) => (State(db2, after), Success(work.result))
         case Failure(e) => (State(run.db, after), Failure(Finished(e))))
      case Fail(error) =>
        var db := match Database.Rollback(run.db, t)
                  case Success(db') => db'
                  case Failure(_) => run.db;
        (State(db, after), Failure(error))
  }

  /** The error `do` reports when the work throws `message` first. */
  function WorkError<A>(steps: seq<Step<A>>): Option<UowError> {
    match FirstRaise(steps)
    case Some(message) => Some(Raised(message))
    case None => None
  }

  /** `do` inside an active transaction: the work's writes join that
      transaction and nothing is committed. On success the transaction stays
      open in the database, but `do` has cleared the handle, so the unit of
      work can no longer commit or roll it back (`StartDoCommitFails`); on
      failure the work's error is rethrown and the transaction is rolled back. */
  lemma DoInherited<A(!new), T>(s: State<A>, work: Work<A, T>)
    requires s.uow.transaction.Some? && s.uow.transaction.value in s.db.open
    ensures var t := s.uow.transaction.value;
            var (s', r) := Do(s, work);
            && s'.db.committed == s.db.committed
            && s'.uow.aggregate_roots == AddAll(s.uow.aggregate_roots, Added(work.steps))
            && (r.Success? <==> WorkError(work.steps).None?)
            && (r.Success? ==> s'.db.open == s.db.open[t := s.db.open[t] + Writes(work.steps)])
            && (r.Failure? ==> r.error == WorkError(work.steps).value && s'.db.open == s.db.open - {t})
  {
    var t := s.uow.transaction.value;
    var run := RunSteps(s.db, Some(t), s.uow.aggregate_roots, work.steps);
    assert t in run.db.open;
    assert run.db.open - {t} == s.db.open - {t};
  }

  /** `start()`, then a `do` whose work succeeds, then `commit()`: the commit
      finds no transaction and throws, and the transaction `start` began is
      still open with the work's writes, none of them committed. */
  lemma StartDoCommitFails<A(!new), T>(s: State<A>, work: Work<A, T>)
    requires s.uow.transaction.None? && s.db.Valid() && WorkError(work.steps).None?
    ensures var s1 := Start(s);
            var (s2, r) := Do(s1, work);
            var t := s1.uow.transaction.value;
            && r.Success?
            && Commit(s2) == Failure(NoTransactionStarted)
            && t in s2.db.open && s2.db.open[t] == Writes(work.steps)
            && s2.db.committed == s.db.committed
  {
    var s1 := Start(s);
    DoInherited(s1, work);
  }

  /** `do` with no active transaction: on success exactly the work's writes
      are committed; on failure the committed rows are as before (a delete
      that was followed by an exception is undone) and the work's error is
      rethrown. Either way no transaction is left open. */
  lemma DoAuto<A(!new), T>(s: State<A>, work: Work<A, T>)
    requires s.uow.transaction.None? && s.db.Valid()
    ensures var (s', r) := Do(s, work);
            && s'.db.open == s.db.open && s'.db.Valid()
            && s'.uow.aggregate_roots == AddAll(s.uow.aggregate_roots, Added(work.steps))
            && (r.Success? <==> WorkError(work.steps).None?)
            && (r.Success? ==> s'.db.committed == Database.Apply(s.db.committed, Writes(work.steps)))
            && (r.Failure? ==> r.error == WorkError(work.steps).value && s'.db.committed == s.db.committed)
  {
    var (db1, t) := Database.Begin(s.db);
    var run := RunSteps(db1, Some(t), s.uow.aggregate_roots, work.steps);
    assert run.db.open[t] == Writes(work.steps);
    assert run.db.open - {t} == s.db.open;
  }

  /** The rollback scenario of deleting a genre: a delete followed by an
      exception, run by `do` with no active transaction, leaves the genre's row
      in place and rethrows the exception. */
  lemma DeleteThenFailKeepsRow<A(!new)>(rows: map<string, string>, genre_key: string, u: Uow<A>)
    requires genre_key in rows && u.transaction.None?
    ensures var work := Work([Destroy(genre_key), Raise("Generic Error")], ());
            var (s', r) := Do(State(Database.WithRows(rows), u), work);
            && r == Failure(Raised("Generic Error"))
            && genre_key in s'.db.committed && s'.db.committed[genre_key] == rows[genre_key]
  {
    var work: Work<A, ()> := Work([Destroy(genre_key), Raise("Generic Error")], ());
    assert FirstRaise(work.steps[1..]) == Some("Generic Error");
    DoAuto(State(Database.WithRows(rows), u), work);
  }

  /** `addAggregateRoot(aggregate)`: set semantics, first insertion first. */
  function AddAggregateRoot<A(==, !new)>(s: State<A>, a: A): (r: State<A>)
    ensures forall x :: x in r.uow.aggregate_roots <==> x in s.uow.aggregate_roots || x == a
    ensures s.uow.aggregate_roots <= r.uow.aggregate_roots
    ensures a in s.uow.aggregate_roots ==> r == s
    ensures NoDup(s.uow.aggregate_roots) ==> NoDup(r.uow.aggregate_roots)
    ensures r.db == s.db && r.uow.transaction == s.uow.transaction
  {
    s.(uow := s.uow.(aggregate_roots := Insert(s.uow.aggregate_roots, a)))
  }

  /** `getAggregateRoots()`: the tracked aggregates as a list, in the order
      they were first added. */
  function GetAggregateRoots<A>(s: State<A>): seq<A> {
    s.uow.aggregate_roots
  }

  /** Committing or rolling back keeps every tracked aggregate. */
  lemma LifecycleKeepsAggregates<A>(s: State<A>)
    ensures Commit(s).Success? ==> GetAggregateRoots(Commit(s).value) == GetAggregateRoots(s)
    ensures Rollback(s).Success? ==> GetAggregateRoots(Rollback(s).value) == GetAggregateRoots(s)
    ensures GetAggregateRoots(Start(s)) == GetAggregateRoots(s)
  {
  }
}

/** `UnitOfWorkFakeInMemory`, the unit of work of the in-memory repositories:
    no transaction at all. Its lifecycle calls succeed and change nothing, and
    `do` just runs the work with writes going straight to the store. */
module FakeUnitOfWork {
  import opened Wrappers
  import opened OrderedSet
  import opened Work
  import Database

  datatype Fake<A> = Fake(aggregate_roots: seq<A>)

  datatype State<A> = State(db: Database.Db, uow: Fake<A>)

  /** `start()`, `commit()`, `rollback()`: resolve and do nothing. */
  function Start<A>(s: State<A>): (r: (State<A>, Outcome<UowError>))
    ensures r.1.Pass? && r.0 == s
  {
    (s, Pass)
  }

  function Commit<A>(s: State<A>): (r: (State<A>, Outcome<UowError>))
    ensures r.1.Pass? && r.0 == s
  {
    (s, Pass)
  }

  function Rollback<A>(s: State<A>): (r: (State<A>, Outcome<UowError>))
    ensures r.1.Pass? && r.0 == s
  {
    (s, Pass)
  }

  /** `getTransaction()`: there is never a handle. */
  function GetTransaction<A>(s: State<A>): (t: Option<Database.Tx>)
    ensures t.None?
  {
    None
  }

  /** `do(work)`: the work runs once, with this unit of work (so with no
      transaction), and its result or error is passed on unchanged. */
  function Do<A(==, !new), T>(s: State<A>, work: Work<A, T>): (r: (State<A>, Result<T, UowError>))
    ensures var run := RunSteps(s.db, GetTransaction(s), s.uow.aggregate_roots, work.steps);
            && r.0 == State(run.db, Fake(run.aggregates))
            && (run.outcome.Pass? ==> r.1 == Success(work.result))
            && (run.outcome.Fail? ==> r.1 == Failure(run.outcome.error))
  {
    var run := RunSteps(s.db, GetTransaction(s), s.uow.aggregate_roots, work.steps);
    (State(run.db, Fake(run.aggregates)),
     match run.outcome
     case Pass => Success(work.result)
     case Fail(e) => Failure(e))
  }

  /** With no transaction, writes before an exception stay: the fake cannot
      roll back. */
  lemma DoWritesDirectly<A(!new), T>(s: State<A>, work: Work<A, T>)
    ensures var (s', r) := Do(s, work);
            && s'.db.committed == Database.Apply(s.db.committed, Writes(work.steps))
            && (r.Success? <==> FirstRaise(work.steps).None?)
            && (r.Failure? ==> r.error == Raised(FirstRaise(work.steps).value))
            && (r.Success? ==> r.value == work.result)
  {
  }

  /** `addAggregateRoot(aggregate)`: set semantics, first insertion first. */
  function AddAggregateRoot<A(==, !new)>(s: State<A>, a: A): (r: State<A>)
    ensures forall x :: x in r.uow.aggregate_roots <==> x in s.uow.aggregate_roots || x == a
    ensures s.uow.aggregate_roots <= r.uow.aggregate_roots
    ensures a in s.uow.aggregate_roots ==> r == s
    ensures NoDup(s.uow.aggregate_roots) ==> NoDup(r.uow.aggregate_roots)
    ensures r.db == s.db
  {
    s.(uow := Fake(Insert(s.uow.aggregate_roots, a)))
  }

  /** `getAggregateRoots()`: a copy of the tracked aggregates, in insertion
      order; a sequence is a value, so changing the copy cannot reach the set. */
  function GetAggregateRoots<A>(s: State<A>): seq<A> {
    s.uow.aggregate_roots
  }

  /** Adding the same aggregate twice tracks it once. */
  lemma AddTwiceTracksOnce<A(!new)>(s: State<A>, a: A)
    ensures AddAggregateRoot(AddAggregateRoot(s, a), a) == AddAggregateRoot(s, a)
    ensures |GetAggregateRoots(AddAggregateRoot(s, a))| <= |GetAggregateRoots(s)| + 1
  {
  }
}

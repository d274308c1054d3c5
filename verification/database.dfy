/** The database a Sequelize unit of work talks to, reduced to what the unit of
    work relies on: committed rows, and transactions whose writes become
    visible on commit and vanish on rollback. This is the assumed contract of
    the library, not a model of its code. A row is an opaque string. */
module Database {
  import opened Wrappers

  /** A transaction handle. */
  type Tx = nat

  datatype Write = WriteRow(key: string, row: string) | DeleteRow(key: string)

  /** The committed rows, the write log of every open transaction, and the
      handle the next transaction gets. */
  datatype Db = Db(committed: map<string, string>, open: map<Tx, seq<Write>>, next_tx: Tx)
  {
    /** Handles are never reused: every open one was handed out earlier. */
    ghost predicate Valid() {
      forall t :: t in open ==> t < next_tx
    }
  }

  /** A database with the given rows and no transaction. */
  function WithRows(committed: map<string, string>): (db: Db)
    ensures db.Valid() && db.committed == committed && db.open == map[]
  {
    Db(committed, map[], 0)
  }

  /** A write applied to the rows. */
  function ApplyOne(rows: map<string, string>, w: Write): (r: map<string, string>)
    ensures w.WriteRow? ==> r == rows[w.key := w.row]
    ensures w.DeleteRow? ==> w.key !in r && forall k :: k != w.key ==> (k in r <==> k in rows)
  {
    match w
    case WriteRow(key, row) => rows[key := row]
    case DeleteRow(key) => rows - {key}
  }

  /** Writes applied in order. */
  function Apply(rows: map<string, string>, ws: seq<Write>): map<string, string>
    decreases |ws|
  {
    if |ws| == 0 then rows else Apply(ApplyOne(rows, ws[0]), ws[1..])
  }

  /** Applying two logs one after the other is applying their concatenation. */
  lemma {:induction false} ApplyAppend(rows: map<string, string>, a: seq<Write>, b: seq<Write>)
    ensures Apply(rows, a + b) == Apply(Apply(rows, a), b)
    decreases |a|
  {
    if |a| > 0 {
      assert (a + b)[0] == a[0] && (a + b)[1..] == a[1..] + b;
      ApplyAppend(ApplyOne(rows, a[0]), a[1..], b);
    } else {
      assert a + b == b;
    }
  }

  /** Writes touching other keys leave a row as it was. */
  lemma {:induction false} ApplyOtherKeys(rows: map<string, string>, ws: seq<Write>, key: string)
    requires forall i :: 0 <= i < |ws| ==> ws[i].key != key
    ensures key in Apply(rows, ws) <==> key in rows
    ensures key in rows ==> Apply(rows, ws)[key] == rows[key]
    decreases |ws|
  {
    if |ws| > 0 {
      ApplyOtherKeys(ApplyOne(rows, ws[0]), ws[1..], key);
    }
  }

  /** `sequelize.transaction()`: a new open transaction with an empty log. */
  function Begin(db: Db): (r: (Db, Tx))
    ensures r.1 == db.next_tx && r.0.next_tx > r.1
    ensures r.0.open == db.open[r.1 := []] && r.0.committed == db.committed
    ensures db.Valid() ==> r.0.Valid() && r.1 !in db.open
  {
    (Db(db.committed, db.open[db.next_tx := []], db.next_tx + 1), db.next_tx)
  }

  /** Why a transaction operation rejected. */
  datatype DbError = TransactionFinished

  /** `transaction.commit()`: its writes become committed and it is finished;
      a finished transaction cannot be committed again. */
  function Commit(db: Db, t: Tx): (r: Result<Db, DbError>)
    ensures r.Success? <==> t in db.open
    ensures r.Success? ==> && r.value.committed == Apply(db.committed, db.open[t])
                           && r.value.open == db.open - {t}
                           && r.value.next_tx == db.next_tx
    ensures db.Valid() && r.Success? ==> r.value.Valid()
  {
    if t !in db.open then Failure(TransactionFinished)
    else Success(Db(Apply(db.committed, db.open[t]), db.open - {t}, db.next_tx))
  }

  /** `transaction.rollback()`: its writes are dropped and it is finished. */
  function Rollback(db: Db, t: Tx): (r: Result<Db, DbError>)
    ensures r.Success? <==> t in db.open
    ensures r.Success? ==> && r.value.committed == db.committed
                           && r.value.open == db.open - {t}
                           && r.value.next_tx == db.next_tx
    ensures db.Valid() && r.Success? ==> r.value.Valid()
  {
    if t !in db.open then Failure(TransactionFinished)
    else Success(Db(db.committed, db.open - {t}, db.next_tx))
  }

  /** A write made inside transaction `t`, or straight to the committed rows
      when no transaction is passed. */
  function WriteIn(db: Db, t: Option<Tx>, w: Write): (r: Result<Db, DbError>)
    ensures r.Success? <==> t.None? || t.value in db.open
    ensures r.Success? && t.None? ==> r.value == db.(committed := ApplyOne(db.committed, w))
    ensures r.Success? && t.Some? ==> r.value == db.(open := db.open[t.value := db.open[t.value] + [w]])
  {
    match t
    case None => Success(db.(committed := ApplyOne(db.committed, w)))
    case Some(tx) =>
      if tx !in db.open then Failure(TransactionFinished)
      else Success(db.(open := db.open[tx := db.open[tx] + [w]]))
  }

  /** Rolling back a transaction nobody wrote in, begun on a valid database,
      gives the database back but for the handle counter. */
  lemma BeginRollback(db: Db)
    requires db.Valid()
    ensures var (db1, t) := Begin(db);
            && Rollback(db1, t).Success?
            && Rollback(db1, t).value == db.(next_tx := db.next_tx + 1)
  {
    var (db1, t) := Begin(db);
    assert db1.open - {t} == db.open;
  }

  /** Committing a transaction, begun on a valid database, commits exactly the
      writes made in it. */
  lemma BeginWriteCommit(db: Db, ws: seq<Write>)
    requires db.Valid()
    ensures var (db1, t) := Begin(db);
            var db2 := db1.(open := db1.open[t := db1.open[t] + ws]);
            && Commit(db2, t).Success?
            && Commit(db2, t).value == Db(Apply(db.committed, ws), db.open, db.next_tx + 1)
  {
    var (db1, t) := Begin(db);
    var db2 := db1.(open := db1.open[t := db1.open[t] + ws]);
    assert db2.open[t] == ws;
    assert db2.open - {t} == db.open;
  }
}

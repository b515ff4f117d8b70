/** The Postgres connection shim of storage/sql_backend.py: statements guarded by savepoints inside one
    open transaction, against what SQLite does with the same calls. */
module PgSession {
  import opened Options

  /** What becomes of one statement: it changes the database and returns rows; the engine fails it; or the
      driver refuses it - a wrong number of parameters, a value it cannot adapt - and the engine never sees it. */
  datatype Outcome<+D> = Done(next: D, rows: string) | Failed | Refused

  /** One execute(), or one executemany() with a row of parameters per effect. `readOnly` is what the
      SELECT/WITH pattern says of the text. */
  datatype Statement<!D> =
    | Single(readOnly: bool, effect: D -> Outcome<D>)
    | Batch(rows: seq<D -> Outcome<D>>)

  datatype End = AllDone | RowFailed | RowRefused

  /** Rows applied in order up to the first that is not done, and how that ended. */
  function Applied<D>(d: D, rows: seq<D -> Outcome<D>>): (D, End) {
    if rows == [] then (d, AllDone)
    else
      var (d', end) := Applied(d, rows[..|rows| - 1]);
      if end != AllDone then (d', end)
      else match rows[|rows| - 1](d')
        case Done(next, _) => (next, AllDone)
        case Failed => (d', RowFailed)
        case Refused => (d', RowRefused)
  }

  // ---------------------------------------------------------------- SQLite

  /** An error undoes what raised it - one statement, one row of a batch - and the transaction goes on. */
  function LiteStep<D>(d: D, s: Statement<D>): (D, Option<string>) {
    match s
    case Single(_, effect) => (
      match effect(d)
      case Done(next, rows) => (next, Some(rows))
      case _ => (d, None))
    case Batch(rows) =>
      var (d', end) := Applied(d, rows);
      (d', if end == AllDone then Some("") else None)
  }

  function LiteRun<D>(d: D, statements: seq<Statement<D>>): (D, seq<Option<string>>) {
    if statements == [] then (d, [])
    else
      var (d', results) := LiteRun(d, statements[..|statements| - 1]);
      var (d'', result) := LiteStep(d', statements[|statements| - 1]);
      (d'', results + [result])
  }

  // ---------------------------------------------------------------- the Postgres server

  datatype Status = Idle | InTransaction | InError

  /** `savepoints` are those set and not released, newest last. */
  datatype Server<D> = Server(committed: D, current: D, status: Status, savepoints: seq<D>)

  /** Any statement opens a transaction; a failure aborts it, and then everything fails. */
  function Send<D>(v: Server<D>, effect: D -> Outcome<D>): (Server<D>, Option<string>) {
    if v.status == InError then (v, None)
    else match effect(v.current)
      case Done(next, rows) => (v.(current := next, status := InTransaction), Some(rows))
      case Failed => (v.(status := InError), None)
      case Refused => (v, None)
  }

  function SetSavepoint<D>(v: Server<D>): Server<D>
    requires v.status != InError
  {
    v.(savepoints := v.savepoints + [v.current], status := InTransaction)
  }

  function RollbackTo<D>(v: Server<D>): Server<D>
    requires v.savepoints != []
  {
    v.(current := v.savepoints[|v.savepoints| - 1], status := InTransaction)
  }

  function Release<D>(v: Server<D>): Server<D>
    requires v.savepoints != [] && v.status != InError
  {
    v.(savepoints := v.savepoints[..|v.savepoints| - 1])
  }

  /** COMMIT of an aborted transaction is a rollback. */
  function Committed<D>(v: Server<D>): Server<D> {
    if v.status == InError then RolledBack(v)
    else v.(committed := v.current, status := Idle, savepoints := [])
  }

  function RolledBack<D>(v: Server<D>): Server<D> {
    v.(current := v.committed, status := Idle, savepoints := [])
  }

  // ---------------------------------------------------------------- the shim

  /** What one call amounts to: a failed SELECT or WITH aborts the transaction, any other failure is undone as
      a whole; a refusal undoes nothing and leaves the savepoint set; an empty batch does not reach the server. */
  function PgStep<D>(v: Server<D>, s: Statement<D>): (Server<D>, Option<string>) {
    match s
    case Single(readOnly, effect) => (
      if v.status == InError then (v, None)
      else match effect(v.current)
        case Done(next, rows) => (v.(current := next, status := InTransaction), Some(rows))
        case Failed => (v.(status := if readOnly then InError else InTransaction), None)
        case Refused => (if readOnly then v else SetSavepoint(v), None))
    case Batch(rows) =>
      if rows == [] then (v, Some(""))
      else if v.status == InError then (v, None)
      else
        var (d, end) := Applied(v.current, rows);
        match end
        case AllDone => (v.(current := d, status := InTransaction), Some(""))
        case RowFailed => (v.(status := InTransaction), None)
        case RowRefused => (SetSavepoint(v).(current := d), None)
  }

  function PgRun<D>(v: Server<D>, statements: seq<Statement<D>>): (Server<D>, seq<Option<string>>) {
    if statements == [] then (v, [])
    else
      var (v', results) := PgRun(v, statements[..|statements| - 1]);
      var (v'', result) := PgStep(v', statements[|statements| - 1]);
      (v'', results + [result])
  }

  class PgConnection<D> {
    var server: Server<D>

    ghost predicate Valid() reads this {
      server.status == Idle ==> server.current == server.committed && server.savepoints == []
    }

    constructor (database: D)
      ensures Valid() && server == Server(database, database, Idle, [])
    {
      server := Server(database, database, Idle, []);
    }

    /** None is the raised error. */
    method Execute(readOnly: bool, effect: D -> Outcome<D>) returns (result: Option<string>)
      requires Valid()
      modifies this
      ensures Valid() && (server, result) == PgStep(old(server), Single(readOnly, effect))
    {
      if readOnly {
        var sent := Send(server, effect);
        server := sent.0;
        return sent.1;
      }
      if server.status == InError {
        // SAVEPOINT itself is refused
        return None;
      }
      server := SetSavepoint(server);
      var sent := Send(server, effect);
      server := sent.0;
      result := sent.1;
      if result.None? {
        if server.status == InError {
          server := RollbackTo(server);
          server := Release(server);
        }
        return;
      }
      server := Release(server);
    }

    /** executemany: every row under one savepoint. */
    method ExecuteMany(rows: seq<D -> Outcome<D>>) returns (result: Option<string>)
      requires Valid()
      modifies this
      ensures Valid() && (server, result) == PgStep(old(server), Batch(rows))
    {
      if rows == [] {
        return Some("");
      }
      if server.status == InError {
        return None;
      }
      server := SetSavepoint(server);
      ghost var began := server;
      result := Some("");
      var i := 0;
      while i < |rows| && result.Some?
        invariant 0 <= i <= |rows| && (result.None? || result == Some(""))
        invariant var (d, end) := Applied(began.current, rows[..i]);
          && (result.Some? <==> end == AllDone)
          && server == (if end == RowFailed then began.(current := d, status := InError) else began.(current := d))
      {
        var sent := Send(server, rows[i]);
        server := sent.0;
        assert rows[..i + 1][..i] == rows[..i];
        if sent.1.None? { result := None; }
        i := i + 1;
      }
      assert rows[..|rows|] == rows;
      EndsThere(began.current, rows, i);
      if result.None? {
        if server.status == InError {
          server := RollbackTo(server);
          server := Release(server);
        }
        return;
      }
      server := Release(server);
    }

    /** Leaving `with connection:`. */
    method Exit(failed: bool)
      requires Valid()
      modifies this
      ensures Valid() && server == if failed then RolledBack(old(server)) else Committed(old(server))
    {
      if failed || server.status == InError {
        server := server.(current := server.committed);
      } else {
        server := server.(committed := server.current);
      }
      server := server.(status := Idle, savepoints := []);
    }
  }

  /** A batch ends where its first rows end, if they are not all done. */
  lemma {:induction false} EndsThere<D>(d: D, rows: seq<D -> Outcome<D>>, n: nat)
    requires n <= |rows|
    ensures n == |rows| || Applied(d, rows[..n]).1 != AllDone ==> Applied(d, rows) == Applied(d, rows[..n])
    decreases |rows|
  {
    if n == |rows| {
      assert rows[..n] == rows;
    } else {
      var front := rows[..|rows| - 1];
      assert front[..n] == rows[..n];
      EndsThere(d, front, n);
    }
  }

  // ---------------------------------------------------------------- refinement

  /** No failure the engines undo differently: of a statement that looks like a read, or of a batch that had
      already changed the database when the server failed a row. A refusal is always harmless. */
  ghost predicate Harmless<D>(d: D, s: Statement<D>) {
    match s
    case Single(readOnly, effect) => readOnly ==> !effect(d).Failed?
    case Batch(rows) => Applied(d, rows).1 != RowFailed || Applied(d, rows).0 == d
  }

  ghost predicate AllHarmless<D>(d: D, statements: seq<Statement<D>>)
    decreases |statements|
  {
    statements == [] ||
    (var before, last := statements[..|statements| - 1], statements[|statements| - 1];
     AllHarmless(d, before) && Harmless(LiteRun(d, before).0, last))
  }

  lemma {:induction false} SameWhileHarmless<D>(v: Server<D>, statements: seq<Statement<D>>)
    requires v.status != InError && AllHarmless(v.current, statements)
    ensures var (v', results) := PgRun(v, statements);
      && (v'.current, results) == LiteRun(v.current, statements)
      && v'.status != InError && v'.committed == v.committed
  {
    if statements != [] { SameWhileHarmless(v, statements[..|statements| - 1]); }
  }

  /** While every failure is harmless, a transaction behaves on Postgres as it does on SQLite - same rows,
      same errors, same commit. */
  lemma TransactionRefinesSqlite<D>(v: Server<D>, statements: seq<Statement<D>>)
    requires v.status == Idle && v.current == v.committed && AllHarmless(v.current, statements)
    ensures PgRun(v, statements).1 == LiteRun(v.committed, statements).1
    ensures Committed(PgRun(v, statements).0).committed == LiteRun(v.committed, statements).0
    ensures RolledBack(PgRun(v, statements).0).current == v.committed
  {
    SameWhileHarmless(v, statements);
  }

  /** After these statements no next one can tell the engines apart. */
  ghost predicate Alike<D(!new)>(v: Server<D>, statements: seq<Statement<D>>) {
    forall next: Statement<D> ::
      PgStep(PgRun(v, statements).0, next).1 == LiteStep(LiteRun(v.current, statements).0, next).1
  }

  /** The first harmful failure shows at once: to any statement, or to one that reads the database. */
  lemma HarmShows<D(!new)>(v: Server<D>, before: seq<Statement<D>>, last: Statement<D>)
    requires v.status != InError && AllHarmless(v.current, before) && !Harmless(LiteRun(v.current, before).0, last)
    ensures !Alike(v, before + [last])
  {
    SameWhileHarmless(v, before);
    var all := before + [last];
    assert all[..|all| - 1] == before;
    var there, here := LiteRun(v.current, all).0, PgRun(v, all).0;
    var probe := Single(true, (d: D) => Done(d, if d == there then "same" else "other"));
    assert LiteStep(there, probe).1 == Some("same");
    assert PgStep(here, probe).1 != Some("same");
  }

  lemma {:induction false} PrefixIsHarmless<D>(d: D, statements: seq<Statement<D>>, n: nat)
    requires n <= |statements| && AllHarmless(d, statements)
    ensures AllHarmless(d, statements[..n])
    decreases |statements|
  {
    if n == |statements| {
      assert statements[..n] == statements;
    } else {
      var front := statements[..|statements| - 1];
      assert front[..n] == statements[..n];
      PrefixIsHarmless(d, front, n);
    }
  }

  lemma HarmlessIsAlike<D(!new)>(v: Server<D>, statements: seq<Statement<D>>, n: nat)
    requires n <= |statements| && v.status != InError && AllHarmless(v.current, statements)
    ensures Alike(v, statements[..n])
  {
    PrefixIsHarmless(v.current, statements, n);
    SameWhileHarmless(v, statements[..n]);
  }

  lemma {:induction false} HarmIsFound<D(!new)>(v: Server<D>, statements: seq<Statement<D>>) returns (n: nat)
    requires v.status != InError && !AllHarmless(v.current, statements)
    ensures n <= |statements| && !Alike(v, statements[..n])
    decreases |statements|
  {
    var front, last := statements[..|statements| - 1], statements[|statements| - 1];
    if AllHarmless(v.current, front) {
      n := |statements|;
      HarmShows(v, front, last);
      assert statements[..n] == front + [last];
    } else {
      n := HarmIsFound(v, front);
      assert front[..n] == statements[..n];
    }
  }

  /** Nothing at any point of a transaction can tell it from SQLite exactly when every failure in it is
      harmless. */
  lemma SameAsSqliteIff<D(!new)>(v: Server<D>, statements: seq<Statement<D>>)
    requires v.status != InError
    ensures (forall n :: 0 <= n <= |statements| ==> Alike(v, statements[..n])) <==> AllHarmless(v.current, statements)
  {
    if AllHarmless(v.current, statements) {
      forall n | 0 <= n <= |statements| ensures Alike(v, statements[..n]) { HarmlessIsAlike(v, statements, n); }
    } else {
      var n := HarmIsFound(v, statements);
    }
  }

  /** Once a statement that looks like a read has failed, the commit writes nothing, whatever else follows. */
  lemma {:induction false} FailedReadLosesAll<D>(v: Server<D>, before: seq<Statement<D>>, last: Statement<D>,
                                                 after: seq<Statement<D>>)
    requires v.status != InError && AllHarmless(v.current, before)
    requires last.Single? && !Harmless(LiteRun(v.current, before).0, last)
    ensures Committed(PgRun(v, before + [last] + after).0).committed == v.committed
    ensures PgRun(v, before + [last] + after).0.status == InError
    decreases |after|
  {
    var all := before + [last] + after;
    if after == [] {
      SameWhileHarmless(v, before);
      assert all[..|all| - 1] == before;
    } else {
      FailedReadLosesAll(v, before, last, after[..|after| - 1]);
      assert all[..|all| - 1] == before + [last] + after[..|after| - 1];
    }
  }

  /** INSERT of one key into a table that holds the keys of d; a repeated key fails. */
  function InsertKey(key: int): set<int> -> Outcome<set<int>> {
    d => if key in d then Failed else Done(d + {key}, "")
  }

  /** A batch that inserts 2 and then 1 into a table holding 1 raises on both engines; SQLite keeps the 2. */
  lemma HalfDoneBatchDiffers(v: Server<set<int>>)
    requires v == Server({1}, {1}, Idle, [])
    ensures var statements := [Batch([InsertKey(2), InsertKey(1)])];
      && PgRun(v, statements).1 == LiteRun({1}, statements).1 == [None]
      && Committed(PgRun(v, statements).0).committed == {1}
      && LiteRun({1}, statements).0 == {1, 2}
      && !AllHarmless({1}, statements)
  {
    var rows := [InsertKey(2), InsertKey(1)];
    var statements := [Batch(rows)];
    assert rows[..1] == [InsertKey(2)] && [InsertKey(2)][..0] == [] && statements[..0] == [];
    assert Applied({1}, [InsertKey(2)]) == ({1} + {2}, AllDone);
    assert {1} + {2} == {1, 2};
    assert Applied({1}, rows) == ({1, 2}, RowFailed);
    assert LiteRun({1}, []) == ({1}, []);
    assert 2 in LiteRun({1}, statements).0 && 2 !in {1};
  }

  /** With a second row the driver refuses, both engines keep the first. */
  lemma RefusedRowKeepsTheRest(v: Server<set<int>>, refused: set<int> -> Outcome<set<int>>)
    requires v == Server({1}, {1}, Idle, []) && refused({1, 2}) == Refused
    ensures var statements := [Batch([InsertKey(2), refused])];
      && PgRun(v, statements).1 == LiteRun({1}, statements).1 == [None]
      && Committed(PgRun(v, statements).0).committed == LiteRun({1}, statements).0 == {1, 2}
      && AllHarmless({1}, statements)
  {
    var rows := [InsertKey(2), refused];
    var statements := [Batch(rows)];
    assert rows[..1] == [InsertKey(2)] && [InsertKey(2)][..0] == [] && statements[..0] == [];
    assert Applied({1}, [InsertKey(2)]) == ({1} + {2}, AllDone);
    assert {1} + {2} == {1, 2};
    assert Applied({1}, rows) == ({1, 2}, RowRefused);
    assert LiteRun({1}, []) == ({1}, []);
    assert Harmless({1}, statements[0]) && AllHarmless({1}, statements[..0]);
    SameWhileHarmless(v, statements);
  }
}

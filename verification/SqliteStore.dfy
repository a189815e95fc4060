/**
  The SQLite journal (deploy-journal/src/sqlite.rs) over a database that commits a transaction or does not. Every
  statement may fail, and the process may die before or after any of them: `script` says what happens to each, in
  order, and whatever it says the file holds all of a transaction or none of it.
 */
module SqliteStore {
  import opened Bytes

  datatype Kind = Snapshot | Ledger | Control | Config | Git | StepLog

  datatype Row = Row(kind: Kind, body: string)

  /**
    The file as a reader finds it. `tables` says how much of it is there: nothing, the table of declared schemas, or
    the records as well. `schema` is the newest declared schema, 0 for none.
   */
  datatype Db = Db(tables: nat, schema: nat, rows: seq<Row>)

  const NO_TABLES := Db(0, 0, [])

  const REMOVAL_SCHEMA: nat := 2
  const SUPPORTED_SCHEMA: nat := 2

  datatype Outcome = Done | Fails | Dies(took: bool)

  /** A deployment or a ledger record is what tells a used store from an empty one. */
  predicate Occupied(rows: seq<Row>) {
    exists i | 0 <= i < |rows| :: rows[i].kind == Snapshot || rows[i].kind == Ledger
  }

  predicate IsRemoval(r: Row) {
    r.kind == Git && "gitdrop\t" <= r.body
  }

  function WithRow(db: Db, r: Row): Db {
    db.(rows := db.rows + [r])
  }

  function WithRemoval(db: Db, r: Row): Db {
    WithRow(db.(schema := Max(db.schema, REMOVAL_SCHEMA)), r)
  }

  function WithRows(db: Db, rows: seq<Row>): Db {
    db.(rows := db.rows + rows)
  }

  /** What a reader that may not write is given, or nothing when the store cannot be read. */
  function Restore(replays: seq<Row> -> bool, db: Db): Option<seq<Row>> {
    if db.schema > SUPPORTED_SCHEMA || db.tables < 2 || !replays(db.rows) then None else Some(db.rows)
  }

  function LegacyRead(replays: seq<Row> -> bool, legacy: Option<seq<Row>>): Option<seq<Row>> {
    match legacy
    case Some(rows) => if replays(rows) then Some(rows) else None
    case None => None
  }

  function ReadOnly(replays: seq<Row> -> bool, file: Option<Db>, legacy: Option<seq<Row>>): Option<seq<Row>> {
    match file
    case None => LegacyRead(replays, legacy)
    case Some(db) =>
      match Restore(replays, db)
      case None => None
      case Some(rows) => if !Occupied(rows) && legacy.Some? then LegacyRead(replays, legacy) else Some(rows)
  }

  // ---------------------------------------------------------------- what a step may leave

  /** A transaction: told `ok` it is there; told otherwise by a process that lives, it is not. */
  ghost predicate AllOrNothing(before: Option<Db>, after: Option<Db>, full: Db, ok: bool, alive: bool) {
    && (ok ==> after == Some(full))
    && (!ok && alive ==> after == before)
    && (after == before || after == Some(full))
  }

  function Base(before: Option<Db>): Db {
    if before.Some? then before.value else NO_TABLES
  }

  predicate Imports(before: Option<Db>, legacy: Option<seq<Row>>) {
    legacy.Some? && !Occupied(Base(before).rows)
  }

  /** An open: the tables grow, and the records are what they were or have the whole legacy journal behind them. */
  ghost predicate OpenGoes(replays: seq<Row> -> bool, before: Option<Db>, after: Option<Db>, legacy: Option<seq<Row>>,
                           ok: bool) {
    var b := Base(before);
    var imports := Imports(before, legacy);
    && (after.None? ==> before.None? && !ok)
    && (after.Some? ==>
          var a := after.value;
          && b.tables <= a.tables && a.schema in {b.schema, Max(b.schema, 1)}
          && (a.tables < 2 ==> a.rows == b.rows)
          && (a.rows == b.rows || (imports && a.rows == b.rows + legacy.value))
          && (ok ==>
                && Restore(replays, a) == Some(a.rows) && 1 <= a.schema
                && a.rows == if imports then b.rows + legacy.value else b.rows))
  }

  // ---------------------------------------------------------------- what a script allows

  /** The next `k` statements are carried out. */
  predicate Quiet(script: seq<Outcome>, k: nat) {
    forall i :: 0 <= i < k && i < |script| ==> script[i] == Done
  }

  function Later(script: seq<Outcome>, k: nat): seq<Outcome> {
    if k <= |script| then script[k..] else []
  }

  lemma QuietOn(script: seq<Outcome>, a: nat, b: nat)
    ensures Quiet(script, a + b) <==> Quiet(script, a) && Quiet(Later(script, a), b)
    ensures Later(Later(script, a), b) == Later(script, a + b)
  {
    if Quiet(script, a) && Quiet(Later(script, a), b) {
      forall i | 0 <= i < a + b && i < |script| ensures script[i] == Done {
        assert i >= a ==> script[i] == Later(script, a)[i - a];
      }
    }
  }

  /** The statements of an open that succeeds. */
  function OpenSteps(before: Option<Db>, legacy: Option<seq<Row>>): nat {
    (if before.None? then 5 else 4) + (if Imports(before, legacy) then 3 + |legacy.value| else 0)
  }

  /** What stands in the file, and what comes behind it, replays, and its schema is one this program knows. */
  predicate Readable(replays: seq<Row> -> bool, before: Option<Db>, legacy: Option<seq<Row>>) {
    var b := Base(before);
    && b.schema <= SUPPORTED_SCHEMA && replays(b.rows)
    && (Imports(before, legacy) ==> replays(b.rows + legacy.value))
  }

  lemma OpenQuiet(script: seq<Outcome>, before: Option<Db>, legacy: Option<seq<Row>>)
    ensures var one := Later(script, 1);
            var made := if before.None? then Later(one, 1) else one;
            Quiet(script, OpenSteps(before, legacy)) <==>
              && Quiet(script, 1) && (before.None? ==> Quiet(one, 1)) && Quiet(made, 3)
              && (Imports(before, legacy) ==>
                    Quiet(Later(made, 3), 1) && Quiet(Later(Later(made, 3), 1), |legacy.value| + 2))
  {
    hide Quiet, Later, Occupied;
    var n := OpenSteps(before, legacy);
    var one := Later(script, 1);
    QuietOn(script, 1, n - 1);
    QuietOn(one, 1, 3);
    QuietOn(one, 1, n - 2);
    var made := if before.None? then Later(one, 1) else one;
    if Imports(before, legacy) {
      QuietOn(made, 3, |legacy.value| + 3);
      QuietOn(Later(made, 3), 1, |legacy.value| + 2);
    }
  }

  // ---------------------------------------------------------------- the connection

  class Connection {
    var file: Option<Db>
    var tx: Option<Db>
    var alive: bool
    var script: seq<Outcome>

    constructor (file: Option<Db>, script: seq<Outcome>)
      ensures this.file == file && this.tx == None && this.alive && this.script == script
    {
      this.file, this.tx, this.alive, this.script := file, None, true, script;
    }

    /** What happens to the next statement; a dead process runs none. */
    method Fate() returns (o: Outcome)
      modifies this`script, this`alive, this`tx
      ensures alive == (old(alive) && !o.Dies?)
      ensures tx == if alive then old(tx) else None
      ensures o == if !old(alive) then Dies(false) else if old(script) == [] then Done else old(script)[0]
      ensures old(alive) ==> script == Later(old(script), 1)
    {
      if !alive {
        tx := None;
        return Dies(false);
      }
      o := if script == [] then Done else script[0];
      script := if script == [] then [] else script[1..];
      if o.Dies? {
        alive, tx := false, None;
      }
    }

    /** A statement that changes what this connection sees: inside a transaction the transaction, else the file. */
    method Exec(next: Db) returns (ok: bool)
      requires file.Some?
      modifies this
      ensures ok <==> old(alive) && Quiet(old(script), 1)
      ensures ok ==> alive && script == Later(old(script), 1)
      ensures old(tx).Some? ==> file == old(file) && (ok ==> tx == Some(next)) && (!ok && alive ==> tx == old(tx))
      ensures old(tx).None? ==> tx.None? && AllOrNothing(old(file), file, next, ok, alive)
      ensures !alive ==> tx.None?
      ensures !old(alive) ==> !alive && file == old(file)
    {
      var open := tx.Some?;
      var o := Fate();
      if open {
        if o.Done? {
          tx := Some(next);
        }
      } else if o.Done? || o == Dies(true) {
        file := Some(next);
      }
      return o.Done?;
    }

    /** `BEGIN IMMEDIATE`: refused inside a transaction. */
    method Begin() returns (ok: bool)
      requires file.Some?
      modifies this
      ensures ok <==> old(alive) && old(tx).None? && Quiet(old(script), 1)
      ensures file == old(file) && (ok ==> alive && tx == file && script == Later(old(script), 1))
      ensures !ok && alive ==> tx == old(tx)
      ensures !alive ==> tx.None?
      ensures !old(alive) ==> !alive
    {
      var open := tx.Some?;
      var o := Fate();
      if !open && o.Done? {
        tx := file;
      }
      return !open && o.Done?;
    }

    method Commit() returns (ok: bool)
      requires file.Some? && tx.Some? && alive
      modifies this
      ensures ok <==> Quiet(old(script), 1)
      ensures AllOrNothing(old(file), file, old(tx).value, ok, alive)
      ensures ok ==> tx.None? && alive && script == Later(old(script), 1)
      ensures !ok && alive ==> tx == old(tx)
      ensures !alive ==> tx.None?
    {
      var full := tx;
      var o := Fate();
      if o.Done? || o == Dies(true) {
        file, tx := full, None;
      }
      return o.Done?;
    }

    /** A rollback that fails leaves the transaction open; nothing of it is in the file. */
    method Rollback()
      modifies this
      ensures file == old(file) && (tx.None? || tx == old(tx)) && (!alive ==> tx.None?)
      ensures Quiet(old(script), 1) ==> tx.None?
      ensures !old(alive) ==> !alive
    {
      var o := Fate();
      if o.Done? {
        tx := None;
      }
    }

    /** Any one record but a removal: written exactly when its three statements are carried out. */
    method Insert(r: Row) returns (ok: bool)
      requires file.Some? && (!alive ==> tx.None?)
      modifies this
      ensures ok <==> old(alive) && old(tx).None? && Quiet(old(script), 3)
      ensures AllOrNothing(old(file), file, WithRow(old(file).value, r), ok, alive)
      ensures ok ==> tx.None?
      ensures (!alive ==> tx.None?) && (!old(alive) ==> !alive)
    {
      QuietOn(script, 1, 1);
      QuietOn(script, 2, 1);
      ok := Begin();
      if !ok { return; }
      ok := Exec(WithRow(tx.value, r));
      if ok {
        ok := Commit();
      }
      if !ok {
        Rollback();
      }
    }

    /** The stamp and the removal record in one transaction, of four statements when it stamps and of three if not. */
    method RemoveRegistration(r: Row) returns (ok: bool, stamped: bool)
      requires file.Some? && (!alive ==> tx.None?)
      modifies this
      ensures ok <==> && old(alive) && old(tx).None?
                      && Quiet(old(script), if old(file).value.schema < REMOVAL_SCHEMA then 4 else 3)
      ensures AllOrNothing(old(file), file, WithRemoval(old(file).value, r), ok, alive)
      ensures ok ==> stamped == (old(file).value.schema < REMOVAL_SCHEMA)
      ensures (!alive ==> tx.None?) && (!old(alive) ==> !alive)
    {
      QuietOn(script, 1, 1);
      QuietOn(script, 2, 1);
      QuietOn(script, 3, 1);
      stamped := false;
      ok := Begin();
      if !ok { return; }
      stamped := tx.value.schema < REMOVAL_SCHEMA;
      if stamped {
        ok := Exec(tx.value.(schema := REMOVAL_SCHEMA));
      }
      if ok {
        ok := Exec(WithRow(tx.value, r));
      }
      if ok {
        ok := Commit();
      }
      if !ok {
        Rollback();
      }
    }

    /** Every record of the legacy journal, in order, in one transaction. */
    method ImportLegacy(legacy: seq<Row>) returns (ok: bool)
      requires file.Some? && (!alive ==> tx.None?)
      modifies this
      ensures ok <==> old(alive) && old(tx).None? && Quiet(old(script), |legacy| + 2)
      ensures ok ==> alive && tx.None? && script == Later(old(script), |legacy| + 2)
      ensures AllOrNothing(old(file), file, WithRows(old(file).value, legacy), ok, alive)
      ensures (!alive ==> tx.None?) && (!old(alive) ==> !alive)
    {
      hide Quiet, Later;
      QuietOn(script, 1, |legacy| + 1);
      ok := Begin();
      if !ok { return; }
      var i := 0;
      assert WithRows(tx.value, legacy[..0]) == tx.value;
      while ok && i < |legacy|
        invariant i <= |legacy| && file == old(file)
        invariant ok ==> alive && tx == Some(WithRows(file.value, legacy[..i]))
        invariant ok ==> Quiet(old(script), i + 1) && script == Later(old(script), i + 1)
        invariant !ok ==> !Quiet(old(script), |legacy| + 2)
        invariant !alive ==> tx.None?
        invariant !old(alive) ==> !alive
        decreases |legacy| - i, ok
      {
        QuietOn(old(script), i + 1, 1);
        QuietOn(old(script), i + 2, |legacy| - i);
        ok := Exec(WithRow(tx.value, legacy[i]));
        if ok {
          assert legacy[..i + 1] == legacy[..i] + [legacy[i]];
          assert WithRow(WithRows(file.value, legacy[..i]), legacy[i]).rows
              == WithRows(file.value, legacy[..i + 1]).rows;
          i := i + 1;
        }
      }
      if ok {
        assert legacy[..i] == legacy;
        QuietOn(old(script), i + 1, 1);
        ok := Commit();
      }
      if !ok {
        Rollback();
      }
    }

    /** `CREATE TABLE IF NOT EXISTS` twice, then the first schema: three statements, each its own transaction. */
    method Migrate() returns (ok: bool)
      requires file.Some? && tx.None?
      modifies this
      ensures ok <==> old(alive) && Quiet(old(script), 3)
      ensures file.Some? && tx.None? && (ok ==> alive && script == Later(old(script), 3)) && (!old(alive) ==> !alive)
      ensures var b, a := old(file).value, file.value;
              && a.rows == b.rows && b.tables <= a.tables && a.schema in {b.schema, Max(b.schema, 1)}
              && (ok ==> 2 <= a.tables && a.schema == Max(b.schema, 1))
    {
      QuietOn(script, 1, 1);
      QuietOn(script, 2, 1);
      ok := Exec(file.value.(tables := Max(file.value.tables, 1)));
      if ok {
        ok := Exec(file.value.(tables := Max(file.value.tables, 2)));
      }
      if ok {
        ok := Exec(file.value.(schema := Max(file.value.schema, 1)));
      }
    }

    /**
      Opening: it succeeds exactly when what it finds, and what it imports behind it, can be read, and no statement
      fails.
     */
    method Open(legacy: Option<seq<Row>>, replays: seq<Row> -> bool) returns (ok: bool)
      requires tx.None?
      modifies this
      ensures OpenGoes(replays, old(file), file, legacy, ok)
      ensures ok ==> file.Some?
      ensures ok <==> && old(alive) && Readable(replays, old(file), legacy)
                      && Quiet(old(script), OpenSteps(old(file), legacy))
    {
      OpenQuiet(script, file, legacy);
      // the lock
      var lock := Fate();
      if !lock.Done? { return false; }
      if file.None? {
        var o := Fate();
        if o.Done? || o == Dies(true) {
          file := Some(NO_TABLES);
        }
        if !o.Done? { return false; }
      }
      ok := Migrate();
      if !ok { return; }
      if Restore(replays, file.value).None? {
        return false;
      }
      if !Occupied(file.value.rows) && legacy.Some? {
        // the legacy journal is read again before the transaction begins
        var read := Fate();
        if !read.Done? { return false; }
        ok := ImportLegacy(legacy.value);
        if ok && Restore(replays, file.value).None? {
          ok := false;
        }
      }
    }
  }

  // ---------------------------------------------------------------- any number of opens and writes

  /** An open that says whether it succeeded, and the writes of an open that did: any record, or a removal. */
  datatype Event =
    | Opened(after: Option<Db>, ok: bool)
    | Inserted(row: Row, ok: bool, alive: bool, after: Option<Db>)
    | Removed(row: Row, ok: bool, alive: bool, after: Option<Db>)

  /** The file, whether a writer is open on it, and what was written after the migration. */
  datatype Store = Store(file: Option<Db>, writing: bool, later: seq<Row>)

  ghost predicate Goes(replays: seq<Row> -> bool, legacy: seq<Row>, s: Store, e: Event, t: Store) {
    match e
    case Opened(after, ok) =>
      OpenGoes(replays, s.file, after, Some(legacy), ok) && t == Store(after, ok, s.later)
    case Inserted(row, ok, alive, after) =>
      && s.writing && s.file.Some?
      && AllOrNothing(s.file, after, WithRow(s.file.value, row), ok, alive)
      && t == Store(after, alive, if after == s.file then s.later else s.later + [row])
    case Removed(row, ok, alive, after) =>
      && s.writing && s.file.Some?
      && AllOrNothing(s.file, after, WithRemoval(s.file.value, row), ok, alive)
      && t == Store(after, alive, if after == s.file then s.later else s.later + [row])
  }

  ghost predicate Run(replays: seq<Row> -> bool, legacy: seq<Row>, stores: seq<Store>, events: seq<Event>) {
    && |stores| == |events| + 1
    && stores[0] == Store(None, false, [])
    && forall i :: 0 <= i < |events| ==> Goes(replays, legacy, stores[i], events[i], stores[i + 1])
  }

  /** Either nothing was migrated and nothing written, or the legacy records are there once, with the writes behind. */
  ghost predicate OnceAndThenLater(legacy: seq<Row>, s: Store) {
    var b := Base(s.file);
    && b.schema <= SUPPORTED_SCHEMA
    && (s.writing ==> b.rows == legacy + s.later)
    && ((b.rows == [] && s.later == []) || (b.tables >= 2 && b.rows == legacy + s.later))
  }

  lemma StillOccupied(legacy: seq<Row>, later: seq<Row>)
    requires Occupied(legacy)
    ensures Occupied(legacy + later)
  {
    var i :| 0 <= i < |legacy| && (legacy[i].kind == Snapshot || legacy[i].kind == Ledger);
    assert (legacy + later)[i] == legacy[i];
  }

  lemma OpenKeeps(replays: seq<Row> -> bool, legacy: seq<Row>, s: Store, after: Option<Db>, ok: bool)
    requires Occupied(legacy) && OnceAndThenLater(legacy, s) && OpenGoes(replays, s.file, after, Some(legacy), ok)
    ensures OnceAndThenLater(legacy, Store(after, ok, s.later))
  {
    StillOccupied(legacy, s.later);
    hide Occupied, Restore;
    assert [] + legacy == legacy && legacy + [] == legacy;
  }

  lemma GoesKeeps(replays: seq<Row> -> bool, legacy: seq<Row>, s: Store, e: Event, t: Store)
    requires Occupied(legacy) && OnceAndThenLater(legacy, s) && Goes(replays, legacy, s, e, t)
    ensures OnceAndThenLater(legacy, t)
  {
    assert legacy != [] && legacy + s.later != [];
    hide Occupied, Restore, OpenGoes;
    match e
    case Opened(after, ok) => OpenKeeps(replays, legacy, s, after, ok);
    case Inserted(row, ok, alive, after) =>
      assert legacy + s.later + [row] == legacy + (s.later + [row]);
      assert |s.file.value.rows + [row]| != |s.file.value.rows|;
    case Removed(row, ok, alive, after) =>
      assert legacy + s.later + [row] == legacy + (s.later + [row]);
      assert |s.file.value.rows + [row]| != |s.file.value.rows|;
  }

  /**
    For a legacy journal that holds a deployment or a ledger record: after any opens, whether or not they failed or
    died half way, and any writes, removals among them, the rows are the legacy records once and then the writes.
   */
  lemma {:induction false} ImportedExactlyOnce(replays: seq<Row> -> bool, legacy: seq<Row>, stores: seq<Store>,
                                               events: seq<Event>, i: nat)
    requires Occupied(legacy) && Run(replays, legacy, stores, events) && i < |stores|
    ensures OnceAndThenLater(legacy, stores[i])
  {
    if i > 0 {
      ImportedExactlyOnce(replays, legacy, stores, events, i - 1);
      hide OnceAndThenLater, Goes;
      GoesKeeps(replays, legacy, stores[i - 1], events[i - 1], stores[i]);
    }
  }

  /**
    And what is read without the lock is always the legacy records and then the writes. The one time it cannot be
    read is while the file is there and its records are not: the writer created it and has not come to its second
    table, or died before it did.
   */
  lemma ReadsTheSameIff(replays: seq<Row> -> bool, legacy: seq<Row>, stores: seq<Store>, events: seq<Event>, i: nat)
    requires Occupied(legacy) && Run(replays, legacy, stores, events) && i < |stores|
    requires replays(legacy + stores[i].later) && replays([])
    ensures var s := stores[i];
            (ReadOnly(replays, s.file, Some(legacy))
             == if s.file.Some? && s.file.value.tables < 2 then None else Some(legacy + s.later))
  {
    var s := stores[i];
    ImportedExactlyOnce(replays, legacy, stores, events, i);
    StillOccupied(legacy, s.later);
    assert legacy + [] == legacy;
  }

  /**
    Without a deployment or a ledger record in the legacy journal the store never looks used, and every open takes
    the legacy records in again: two opens leave them twice. Once holds exactly when there is such a record or
    nothing at all.
   */
  lemma TwoOpensImportOnceIff(replays: seq<Row> -> bool, legacy: seq<Row>, stores: seq<Store>, events: seq<Event>)
    requires Run(replays, legacy, stores, events) && |events| == 2
    requires forall i :: 0 <= i < 2 ==> events[i].Opened? && events[i].ok
    ensures stores[2].file.Some?
    ensures stores[2].file.value.rows == legacy <==> Occupied(legacy) || legacy == []
  {
    assert Goes(replays, legacy, stores[0], events[0], stores[1]);
    assert Goes(replays, legacy, stores[1], events[1], stores[2]);
    assert !Occupied([]);
    assert [] + legacy == legacy;
    if !Occupied(legacy) && legacy != [] {
      assert |legacy + legacy| > |legacy|;
    }
  }
}

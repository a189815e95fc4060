/**
  The first removal of a registration (deploy-cli/src/journal_upgrade.rs and deploy-cli/src/git_cmds.rs): a backup
  that was proved faithful comes before the one-way stamp. Any step may fail, and the process may die at any step.
 */
module JournalUpgrade {
  import opened Bytes
  import opened SqliteStore

  /** A backup file as it can be read back. `durable`: it and its directory entry were flushed. */
  datatype Copy = Copy(intact: bool, schema: nat, rows: seq<Row>, durable: bool)

  predicate Mentions(r: Row) {
    exists i | 0 <= i <= |r.body| :: "gitdrop" <= r.body[i..]
  }

  predicate MentionsAny(rows: seq<Row>) {
    exists i | 0 <= i < |rows| :: Mentions(rows[i])
  }

  predicate HasRemoval(rows: seq<Row>) {
    exists i | 0 <= i < |rows| :: IsRemoval(rows[i])
  }

  lemma RemovalMentions(r: Row)
    requires IsRemoval(r)
    ensures Mentions(r)
  {
    assert r.body[0..] == r.body && "gitdrop" <= "gitdrop\t" <= r.body;
  }

  /** A copy of exactly these records, in a journal that the first schema's readers can open. */
  predicate Proven(c: Copy, rows: seq<Row>) {
    c.intact && c.durable && c.schema <= 1 && c.rows == rows && !HasRemoval(rows)
  }

  /** What a replay of the records gives. */
  type Image = nat

  // ---------------------------------------------------------------- the backups folder

  class Folder {
    var files: map<nat, Copy>
    var sidecars: map<nat, nat>
    var alive: bool
    var script: seq<Outcome>

    constructor (files: map<nat, Copy>, sidecars: map<nat, nat>, script: seq<Outcome>)
      ensures this.files == files && this.sidecars == sidecars && this.alive && this.script == script
    {
      this.files, this.sidecars, this.alive, this.script := files, sidecars, true, script;
    }

    method Fate() returns (o: Outcome)
      modifies this`script, this`alive
      ensures alive == (old(alive) && !o.Dies?)
      ensures !old(alive) ==> o == Dies(false)
      ensures old(alive) && old(script) == [] ==> o.Done? && script == []
    {
      if !alive { return Dies(false); }
      o := if script == [] then Done else script[0];
      script := if script == [] then [] else script[1..];
      alive := !o.Dies?;
    }

    /** A step that changes no file we follow. */
    method Try() returns (ok: bool)
      modifies this`script, this`alive
      ensures (ok ==> old(alive) && alive) && (!old(alive) ==> !alive)
      ensures old(alive) && old(script) == [] ==> ok && script == []
    {
      var o := Fate();
      return o.Done?;
    }

    /** So many of them, until one fails. */
    method TryAll(n: nat) returns (ok: bool)
      modifies this`script, this`alive
      ensures (ok && n > 0 ==> old(alive) && alive) && (!old(alive) ==> !alive)
      ensures old(alive) && old(script) == [] ==> ok && alive && script == []
    {
      ok := true;
      for i := 0 to n
        invariant ok ==> alive == old(alive) && (i > 0 ==> alive)
        invariant !old(alive) ==> !alive
        invariant old(alive) && old(script) == [] ==> ok && alive && script == []
      {
        ok := Try();
        if !ok { return; }
      }
    }

    /** Both files of a backup that is given up; a file that is not there needs no removing. */
    method CleanUp(now: nat) returns (cleaned: bool)
      modifies this
      ensures cleaned ==> files == old(files) - {now} && sidecars == old(sidecars) - {now}
      ensures files == old(files) || files == old(files) - {now}
      ensures sidecars == old(sidecars) || sidecars == old(sidecars) - {now}
      ensures !old(alive) ==> !alive
      ensures old(alive) && old(script) == [] ==> cleaned
    {
      var first := Try();
      if first {
        files := files - {now};
      }
      var second := Try();
      if second {
        sidecars := sidecars - {now};
      }
      return first && second;
    }

    /** `VACUUM INTO`: `copy` is what it writes, whole or not, when it writes anything. */
    method BackupInto(now: nat, copy: Option<Copy>) returns (ok: bool)
      requires now !in files
      modifies this
      ensures ok ==> alive && copy.Some? && files == old(files)[now := copy.value.(durable := false)]
      ensures !ok ==> files - {now} == old(files)
      ensures sidecars == old(sidecars) && (!old(alive) ==> !alive)
      ensures old(alive) && old(script) == [] ==> ok == copy.Some? && alive && script == []
    {
      var was := alive;
      var o := Fate();
      if was && copy.Some? {
        files := files[now := copy.value.(durable := false)];
      }
      return o.Done? && copy.Some?;
    }

    /** Nothing of this reads anything but the copy itself and the journal. */
    method Proofs(copy: Copy, rows: seq<Row>, again: seq<Row>, begun: Image, replay: seq<Row> -> Option<Image>)
      returns (ok: bool)
      requires copy.durable
      modifies this`script, this`alive
      ensures ok ==> alive && Proven(copy, rows)
      ensures !old(alive) ==> !alive
      ensures old(alive) && old(script) == [] ==>
                && script == [] && alive
                && (ok <==> copy.intact && copy.schema <= 1 && copy.rows == rows && !MentionsAny(rows)
                            && replay(rows) == Some(begun) && again == rows)
    {
      // the mode, and reading the facts back
      ok := TryAll(2);
      if !ok { return; }
      if !copy.intact || copy.schema > 1 || copy.rows != rows || MentionsAny(copy.rows) {
        return false;
      }
      if HasRemoval(rows) {
        var i :| 0 <= i < |rows| && IsRemoval(rows[i]);
        RemovalMentions(rows[i]);
      }
      ok := Try();
      if ok { ok := replay(copy.rows) == Some(begun); }
      if ok { ok := Try(); }
      if ok { ok := again == rows; }
    }

    /** The digest beside the backup: create it, write and flush it, flush the folder. */
    method Sidecar(now: nat, records: nat) returns (ok: bool)
      requires now !in sidecars
      modifies this`script, this`alive, this`sidecars
      ensures ok ==> alive && sidecars == old(sidecars)[now := records]
      ensures sidecars == old(sidecars) || sidecars == old(sidecars)[now := records]
      ensures !old(alive) ==> !alive
      ensures old(alive) && old(script) == [] ==> ok && script == []
    {
      // the bytes of the copy are read first
      ok := TryAll(2);
      if !ok { return; }
      sidecars := sidecars[now := records];
      ok := TryAll(2);
    }

    /** The copy, its flushes, its proofs and its digest, under a name that is free. */
    method MakeAndProve(rows: seq<Row>, again: seq<Row>, begun: Image, replay: seq<Row> -> Option<Image>, now: nat,
                        copy: Option<Copy>)
      returns (ok: bool)
      requires alive && now !in files && now !in sidecars
      modifies this
      ensures ok ==> now in files && files == old(files)[now := files[now]] && Proven(files[now], rows)
                     && sidecars == old(sidecars)[now := |rows|]
      ensures files - {now} == old(files) && sidecars - {now} == old(sidecars)
      ensures old(script) == [] ==>
                && script == [] && alive
                && (ok <==> copy.Some? && copy.value.intact && copy.value.schema <= 1 && copy.value.rows == rows
                            && !MentionsAny(rows) && replay(rows) == Some(begun) && again == rows)
    {
      hide Proven;
      assert sidecars - {now} == sidecars;
      ok := BackupInto(now, copy);
      // permissions, the file's flush, the folder's flush
      if ok { ok := TryAll(3); }
      if ok {
        files := files[now := files[now].(durable := true)];
        ok := Proofs(files[now], rows, again, begun, replay);
      }
      if ok {
        ok := Sidecar(now, |rows|);
      }
    }

    /**
      The whole of `backup_before_schema2`. `rows` is the journal before the copy and `again` the journal after it;
      `begun` is the state the writer was opened with.
     */
    method BackupBeforeSchema2(rows: seq<Row>, again: seq<Row>, begun: Image, replay: seq<Row> -> Option<Image>,
                               now: nat, copy: Option<Copy>)
      returns (ok: bool, cleaned: bool)
      requires alive
      modifies this
      ensures ok ==> && now !in old(files) && now in files && files == old(files)[now := files[now]]
                     && Proven(files[now], rows) && now in sidecars && sidecars[now] == |rows|
      ensures !ok && cleaned ==> files == old(files) && sidecars == old(sidecars)
      ensures files - {now} == old(files) - {now} && (now in old(files) ==> files == old(files))
      ensures old(script) == [] ==>
                (ok <==> && now !in old(files) && now !in old(sidecars)
                         && copy.Some? && copy.value.intact && copy.value.schema <= 1 && copy.value.rows == rows
                         && !MentionsAny(rows) && replay(rows) == Some(begun) && again == rows)
      ensures old(script) == [] && !ok ==> cleaned
    {
      cleaned := true;
      assert now !in old(files) ==> old(files) - {now} == old(files);
      assert now !in old(sidecars) ==> old(sidecars) - {now} == old(sidecars);
      // the size of the journal, the folder, the room for the copy
      ok := TryAll(3);
      if !ok { return; }
      if now in files || now in sidecars {
        return false, true;
      }
      ok := Try();
      if !ok { return; }
      ok := MakeAndProve(rows, again, begun, replay, now, copy);
      if !ok {
        cleaned := CleanUp(now);
      }
    }
  }

  // ---------------------------------------------------------------- the removal command

  /** What the command may leave, wherever it failed or died. */
  ghost predicate RemovalGoes(db: Db, files: map<nat, Copy>, after: Db, filesAfter: map<nat, Copy>, r: Row, now: nat) {
    && (forall k <- files :: k in filesAfter && filesAfter[k] == files[k])
    && (after == db
        || (after == WithRemoval(db, r)
            && (db.schema < REMOVAL_SCHEMA ==> now in filesAfter && Proven(filesAfter[now], db.rows))))
  }

  /** The name is free and the copy a faithful one of a journal that no removal is mentioned in. */
  predicate BackupGoesThrough(rows: seq<Row>, files: map<nat, Copy>, sidecars: map<nat, nat>, begun: Image,
                              replay: seq<Row> -> Option<Image>, now: nat, copy: Option<Copy>) {
    && now !in files && now !in sidecars
    && copy.Some? && copy.value.intact && copy.value.schema <= 1 && copy.value.rows == rows
    && !MentionsAny(rows) && replay(rows) == Some(begun)
  }

  /**
    The removal, with the backup before it when it is the first. Where nothing fails it goes through exactly when it
    is not the first or the backup does.
   */
  method RemoveCommand(c: Connection, f: Folder, r: Row, now: nat, copy: Option<Copy>, begun: Image,
                       replay: seq<Row> -> Option<Image>)
    returns (ok: bool)
    requires c.file.Some? && c.tx.None? && c.alive && f.alive
    modifies c, f
    ensures c.file.Some? && RemovalGoes(old(c.file).value, old(f.files), c.file.value, f.files, r, now)
    ensures ok ==> c.file == Some(WithRemoval(old(c.file).value, r))
    ensures old(c.script) == [] && old(f.script) == [] ==>
              (ok <==> old(c.file).value.schema >= REMOVAL_SCHEMA
                       || BackupGoesThrough(old(c.file).value.rows, old(f.files), old(f.sidecars), begun, replay, now,
                                            copy))
  {
    if c.file.value.schema < REMOVAL_SCHEMA {
      var cleaned;
      ok, cleaned := f.BackupBeforeSchema2(c.file.value.rows, c.file.value.rows, begun, replay, now, copy);
      assert forall k <- old(f.files) :: k != now ==> k in f.files - {now};
      if !ok { return; }
    }
    var stamped;
    ok, stamped := c.RemoveRegistration(r);
  }

  // ---------------------------------------------------------------- every run

  datatype Step =
    | Opens(after: Db)
    | Inserts(row: Row, ok: bool, alive: bool, after: Db)
    | Removes(row: Row, now: nat, after: Db, files: map<nat, Copy>)
    | PowerLoss(files: map<nat, Copy>)

  datatype World = World(db: Db, files: map<nat, Copy>)

  ghost predicate Goes(replays: seq<Row> -> bool, legacy: Option<seq<Row>>, w: World, e: Step, v: World) {
    match e
    case Opens(after) =>
      (exists ok :: OpenGoes(replays, Some(w.db), Some(after), legacy, ok)) && v == w.(db := after)
    case Inserts(row, ok, alive, after) =>
      && !IsRemoval(row)
      && AllOrNothing(Some(w.db), Some(after), WithRow(w.db, row), ok, alive) && v == w.(db := after)
    case Removes(row, now, after, files) =>
      IsRemoval(row) && RemovalGoes(w.db, w.files, after, files, row, now) && v == World(after, files)
    case PowerLoss(files) =>
      // what was flushed is still there
      (forall k <- w.files :: w.files[k].durable ==> k in files && files[k] == w.files[k]) && v == w.(files := files)
  }

  ghost predicate Run(replays: seq<Row> -> bool, legacy: Option<seq<Row>>, worlds: seq<World>, steps: seq<Step>) {
    && |worlds| == |steps| + 1
    && worlds[0] == World(NO_TABLES, map[])
    && forall i :: 0 <= i < |steps| ==> Goes(replays, legacy, worlds[i], steps[i], worlds[i + 1])
  }

  /** The records before the first removal. */
  function UpToRemoval(rows: seq<Row>): seq<Row> {
    if rows == [] || IsRemoval(rows[0]) then [] else [rows[0]] + UpToRemoval(rows[1..])
  }

  lemma {:induction false} UpToRemovalStays(rows: seq<Row>, more: seq<Row>)
    ensures HasRemoval(rows) ==> UpToRemoval(rows + more) == UpToRemoval(rows)
    ensures !HasRemoval(rows) ==> UpToRemoval(rows + more) == rows + UpToRemoval(more)
    ensures HasRemoval(rows + more) <==> HasRemoval(rows) || HasRemoval(more)
  {
    if rows == [] {
      assert rows + more == more;
    } else {
      UpToRemovalStays(rows[1..], more);
      assert (rows + more)[1..] == rows[1..] + more;
      FirstOrRest(rows);
      FirstOrRest(rows + more);
    }
  }

  lemma FirstOrRest(rows: seq<Row>)
    requires rows != []
    ensures HasRemoval(rows) <==> IsRemoval(rows[0]) || HasRemoval(rows[1..])
  {
    if HasRemoval(rows) && !IsRemoval(rows[0]) {
      var i :| 0 <= i < |rows| && IsRemoval(rows[i]);
      assert rows[1..][i - 1] == rows[i];
    }
    if HasRemoval(rows[1..]) {
      var i :| 0 <= i < |rows[1..]| && IsRemoval(rows[1..][i]);
      assert rows[i + 1] == rows[1..][i];
    }
  }

  /** A removal record is there exactly when the journal says so, and then the journal before it is kept. */
  ghost predicate RemovalIsBackedUp(w: World) {
    && (HasRemoval(w.db.rows) <==> w.db.schema >= REMOVAL_SCHEMA)
    && (HasRemoval(w.db.rows) ==> exists k <- w.files :: Proven(w.files[k], UpToRemoval(w.db.rows)))
  }

  lemma MoreRows(w: World, more: seq<Row>, schema: nat)
    requires RemovalIsBackedUp(w) && !HasRemoval(more) && schema in {w.db.schema, Max(w.db.schema, 1)}
    ensures forall tables: nat :: RemovalIsBackedUp(w.(db := Db(tables, schema, w.db.rows + more)))
  {
    UpToRemovalStays(w.db.rows, more);
    hide HasRemoval, UpToRemoval, Proven;
  }

  lemma AnotherRemoval(w: World, r: Row, now: nat, files: map<nat, Copy>)
    requires RemovalIsBackedUp(w) && IsRemoval(r)
    requires forall k <- w.files :: k in files && files[k] == w.files[k]
    requires w.db.schema < REMOVAL_SCHEMA ==> now in files && Proven(files[now], w.db.rows)
    ensures RemovalIsBackedUp(World(WithRemoval(w.db, r), files))
  {
    UpToRemovalStays(w.db.rows, [r]);
    FirstOrRest([r]);
    assert UpToRemoval([r]) == [] && w.db.rows + [] == w.db.rows;
    hide HasRemoval, UpToRemoval, Proven, IsRemoval;
    if HasRemoval(w.db.rows) {
      var k :| k in w.files && Proven(w.files[k], UpToRemoval(w.db.rows));
      assert k in files && Proven(files[k], UpToRemoval(w.db.rows));
    }
  }

  lemma FilesStay(w: World, db: Db, files: map<nat, Copy>)
    requires RemovalIsBackedUp(w) && db == w.db
    requires forall k <- w.files :: w.files[k].durable ==> k in files && files[k] == w.files[k]
    ensures RemovalIsBackedUp(World(db, files))
  {
    hide HasRemoval, UpToRemoval;
    if HasRemoval(w.db.rows) {
      var k :| k in w.files && Proven(w.files[k], UpToRemoval(w.db.rows));
      assert k in files && Proven(files[k], UpToRemoval(w.db.rows));
    }
  }

  lemma GoesKeeps(replays: seq<Row> -> bool, legacy: Option<seq<Row>>, w: World, e: Step, v: World)
    requires RemovalIsBackedUp(w) && Goes(replays, legacy, w, e, v)
    requires legacy.Some? ==> !HasRemoval(legacy.value)
    ensures RemovalIsBackedUp(v)
  {
    hide RemovalIsBackedUp;
    match e
    case Opens(after) =>
      var ok :| OpenGoes(replays, Some(w.db), Some(after), legacy, ok);
      var more := if after.rows == w.db.rows then [] else legacy.value;
      assert w.db.rows + [] == w.db.rows && !HasRemoval([]);
      MoreRows(w, more, after.schema);
      assert after == Db(after.tables, after.schema, w.db.rows + more);
    case Inserts(row, ok, alive, after) =>
      FirstOrRest([row]);
      if after != w.db {
        MoreRows(w, [row], after.schema);
        assert after == Db(after.tables, after.schema, w.db.rows + [row]);
      }
    case Removes(row, now, after, files) =>
      if after == w.db {
        FilesStay(w, after, files);
      } else {
        AnotherRemoval(w, row, now, files);
      }
    case PowerLoss(files) => FilesStay(w, w.db, files);
  }

  /**
    In every run of opens, writes, removals and power losses, with a crash or a failure anywhere: the journal holds
    a removal record exactly when it declares schema 2, and then a flushed backup is there that declares at most
    schema 1 and holds exactly the records before the first removal.
   */
  lemma {:induction false} RemovalIsAlwaysBackedUp(replays: seq<Row> -> bool, legacy: Option<seq<Row>>,
                                                   worlds: seq<World>, steps: seq<Step>, i: nat)
    requires Run(replays, legacy, worlds, steps) && i < |worlds|
    requires legacy.Some? ==> !HasRemoval(legacy.value)
    ensures RemovalIsBackedUp(worlds[i])
  {
    if i > 0 {
      RemovalIsAlwaysBackedUp(replays, legacy, worlds, steps, i - 1);
      hide RemovalIsBackedUp, Goes;
      GoesKeeps(replays, legacy, worlds[i - 1], steps[i - 1], worlds[i]);
    }
  }

  /** A legacy journal with a removal record in it breaks the first half: its import stamps nothing. */
  lemma LegacyRemovalIsNotStamped(legacy: seq<Row>)
    requires HasRemoval(legacy)
    ensures var w := World(NO_TABLES, map[]);
            var v := World(Db(2, 1, legacy), map[]);
            Goes(rows => true, Some(legacy), w, Opens(v.db), v) && !RemovalIsBackedUp(v)
  {
    var w, v := World(NO_TABLES, map[]), World(Db(2, 1, legacy), map[]);
    assert [] + legacy == legacy;
    assert OpenGoes(rows => true, Some(w.db), Some(v.db), Some(legacy), true);
  }

  // ---------------------------------------------------------------- the word in a record that is no removal

  /**
    The backup looks for the word, not for the record. A repository may be called `gitdrop`, and from then on its
    registration stands in the way of the first removal of any repository.
   */
  lemma NameStandsInTheWay(fields: string, rows: seq<Row>, i: nat)
    requires i < |rows| && rows[i] == Row(Git, "gitrepo\t1\tgitdrop\t" + fields)
    ensures !IsRemoval(rows[i]) && MentionsAny(rows)
  {
    var b := rows[i].body;
    assert b[3] == 'r' && "gitdrop\t"[3] == 'd';
    assert b == "gitrepo\t1\t" + ("gitdrop" + ("\t" + fields));
    assert b[10..] == "gitdrop" + ("\t" + fields);
    assert "gitdrop" <= b[10..];
  }
}

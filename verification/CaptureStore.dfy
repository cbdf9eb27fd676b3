/** The SQLite capture store (manyfaced/db/storage.py, class SQLiteStorage): retrying
    insert-or-ignore, archive-then-delete, and what survives faults and crashes.

    A connection sees its own open transaction, so the main table is kept twice:
    `committed` is what a crash leaves behind and `working` is what the connection sees.
    The archive databases only ever change by a commit. */
module CaptureStore {
  import opened Wrappers
  import opened Records
  import opened TextOrder

  const MAX_ATTEMPTS: nat := 5

  datatype Row = Row(id: nat, key: Key, body: Fields)

  type Table = seq<Row>

  /** `committedNext` and `workingNext` are the AUTOINCREMENT counters: every new id is at
      least the counter, and the counter is part of the transaction. */
  datatype Db = Db(
    committed: Table, committedNext: nat,
    working: Table, workingNext: nat,
    archives: map<string, Table>)

  predicate HasKey(t: Table, k: Key) {
    exists r :: r in t && r.key == k
  }

  predicate Clashes(t: Table, row: Row) {
    exists r :: r in t && (r.id == row.id || r.key == row.key)
  }

  /** INSERT OR IGNORE under the primary key and UNIQUE(bot_ip, timestamp). */
  function InsertOrIgnore(t: Table, row: Row): Table {
    if Clashes(t, row) then t else t + [row]
  }

  function Commit(db: Db): Db {
    db.(committed := db.working, committedNext := db.workingNext)
  }

  /** The process dies: the open transaction is gone. */
  function Crash(db: Db): Db {
    db.(working := db.committed, workingNext := db.committedNext)
  }

  // -------------------------------------------------------------------------
  // Insert
  // -------------------------------------------------------------------------

  /** What the database does to one attempt. `skip` is how far the id counter runs ahead. */
  datatype Attempt =
    | ExecuteLocked
    | ExecuteFailed
    | CommitLocked(skip: nat)
    | CommitFailed(skip: nat)
    | Applied(skip: nat)

  datatype Outcome = Accepted | Failed | GaveUp

  function Execute(db: Db, key: Key, body: Fields, skip: nat): Db {
    var id := db.workingNext + skip;
    db.(working := InsertOrIgnore(db.working, Row(id, key, body)), workingNext := id + 1)
  }

  function InsertFrom(db: Db, key: Key, body: Fields, script: nat -> Attempt, attempt: nat): (Db, Outcome)
    decreases MAX_ATTEMPTS - attempt
  {
    if attempt >= MAX_ATTEMPTS then (db, GaveUp)
    else
      match script(attempt)
      case ExecuteLocked => InsertFrom(db, key, body, script, attempt + 1)
      case ExecuteFailed => (db, Failed)
      case CommitLocked(skip) => InsertFrom(Execute(db, key, body, skip), key, body, script, attempt + 1)
      case CommitFailed(skip) => (Execute(db, key, body, skip), Failed)
      case Applied(skip) => (Commit(Execute(db, key, body, skip)), Accepted)
  }

  // -------------------------------------------------------------------------
  // Archive
  // -------------------------------------------------------------------------

  /** What happens to one row's INSERT into the archive. `RolledBack` is an error that also
      cancels the whole open transaction of the archive connection (a full disk may do so). */
  datatype RowFate = Copied | RowFailed | RolledBack

  datatype ArchiveEnd =
    | Finished
    | ArchiveCommitFailed
    | DeleteFailed
    | DeleteCommitFailed
    | CrashBeforeArchiveCommit
    | CrashBeforeMainCommit

  function Selected(t: Table, cutoff: string): Table {
    if t == [] then []
    else
      var rest := Selected(t[..|t| - 1], cutoff);
      if Before(t[|t| - 1].key.timestamp, cutoff) then rest + [t[|t| - 1]] else rest
  }

  /** The archive table and the list of archived ids after the first `n` rows. */
  function CopyFirst(base: Table, rows: Table, fates: nat -> RowFate, n: nat): (Table, seq<nat>)
    requires n <= |rows|
  {
    if n == 0 then (base, [])
    else
      var (copy, ids) := CopyFirst(base, rows, fates, n - 1);
      match fates(n - 1)
      case Copied => (InsertOrIgnore(copy, rows[n - 1]), ids + [rows[n - 1].id])
      case RowFailed => (copy, ids)
      case RolledBack => (base, ids)
  }

  function Without(t: Table, ids: seq<nat>): Table {
    if t == [] then []
    else
      var rest := Without(t[..|t| - 1], ids);
      if t[|t| - 1].id in ids then rest else rest + [t[|t| - 1]]
  }

  function ArchiveAt(db: Db, dest: string): Table {
    if dest in db.archives then db.archives[dest] else []
  }

  /** A whole archive call. */
  function ArchiveStep(db: Db, cutoff: string, dest: string, fates: nat -> RowFate, end: ArchiveEnd): Db {
    var rows := Selected(db.working, cutoff);
    if rows == [] then db
    else
      var base := ArchiveAt(db, dest);
      var (copy, ids) := CopyFirst(base, rows, fates, |rows|);
      var created := db.(archives := db.archives[dest := base]);
      var copied := db.(archives := db.archives[dest := copy]);
      match end
      case ArchiveCommitFailed => created
      case CrashBeforeArchiveCommit => Crash(created)
      case CrashBeforeMainCommit => Crash(copied)
      case DeleteFailed => copied
      case DeleteCommitFailed =>
        if ids == [] then copied else copied.(working := Without(db.working, ids))
      case Finished =>
        if ids == [] then copied else Commit(copied.(working := Without(db.working, ids)))
  }

  /** The ids the call deletes from the main table. */
  function ArchivedIds(db: Db, cutoff: string, dest: string, fates: nat -> RowFate): seq<nat> {
    var rows := Selected(db.working, cutoff);
    CopyFirst(ArchiveAt(db, dest), rows, fates, |rows|).1
  }

  // -------------------------------------------------------------------------
  // The object
  // -------------------------------------------------------------------------

  class SqliteStorage {
    var open: bool
    var db: Db
    var dump: seq<Record>

    constructor (db: Db, open: bool)
      ensures this.db == db && this.open == open && dump == []
    {
      this.db, this.open, this.dump := db, open, [];
    }

    /** The record reaches the table or the dump file in exactly the listed cases. */
    method Insert(rec: Record, script: nat -> Attempt, dumpWorks: bool)
      modifies this
      ensures open == old(open)
      ensures !open || !Extractable(rec) ==> db == old(db) && dump == old(dump)
      ensures open && Extractable(rec) ==>
                var (after, outcome) := InsertFrom(old(db), ExtractKey(rec), ExtractFields(rec), script, 0);
                && db == after
                && dump == if outcome == GaveUp && dumpWorks then old(dump) + [rec] else old(dump)
    {
      hide Extractable, ExtractKey, ExtractFields, Execute;
      if !open || !Extractable(rec) {
        return;
      }
      var key, body := ExtractKey(rec), ExtractFields(rec);
      var attempt: nat := 0;
      while attempt < MAX_ATTEMPTS
        invariant attempt <= MAX_ATTEMPTS
        invariant open == old(open) && dump == old(dump)
        invariant InsertFrom(old(db), key, body, script, 0) == InsertFrom(db, key, body, script, attempt)
      {
        match script(attempt) {
          case ExecuteLocked =>
          case ExecuteFailed => return;
          case CommitLocked(skip) => db := Execute(db, key, body, skip);
          case CommitFailed(skip) =>
            db := Execute(db, key, body, skip);
            return;
          case Applied(skip) =>
            db := Execute(db, key, body, skip);
            db := Commit(db);
            return;
        }
        attempt := attempt + 1;
      }
      if dumpWorks {
        dump := dump + [rec];
      }
    }

    /** The copy loop, the archive commit, the delete and the main commit, in that order. */
    method ArchiveOldRecords(cutoff: string, dest: string, fates: nat -> RowFate, end: ArchiveEnd)
      returns (path: Option<string>)
      modifies this
      ensures open == old(open) && dump == old(dump)
      ensures db == if open then ArchiveStep(old(db), cutoff, dest, fates, end) else old(db)
      ensures path == if open && end == Finished && ArchivedIds(old(db), cutoff, dest, fates) != []
                      then Some(dest) else None
    {
      hide Selected, InsertOrIgnore, Without;
      path := None;
      if !open {
        return;
      }
      var rows := Selected(db.working, cutoff);
      if rows == [] {
        return;
      }
      var base := ArchiveAt(db, dest);
      db := db.(archives := db.archives[dest := base]);
      var copy, ids := base, [];
      for i := 0 to |rows|
        invariant open && dump == old(dump)
        invariant db == old(db).(archives := old(db).archives[dest := base])
        invariant (copy, ids) == CopyFirst(base, rows, fates, i)
      {
        match fates(i) {
          case Copied =>
            copy := InsertOrIgnore(copy, rows[i]);
            ids := ids + [rows[i].id];
          case RowFailed =>
          case RolledBack => copy := base;
        }
      }
      if end == ArchiveCommitFailed {
        return;
      }
      if end == CrashBeforeArchiveCommit {
        db := Crash(db);
        return;
      }
      db := db.(archives := db.archives[dest := copy]);
      assert db == old(db).(archives := old(db).archives[dest := copy]);
      if end == CrashBeforeMainCommit {
        db := Crash(db);
        return;
      }
      if ids == [] || end == DeleteFailed {
        return;
      }
      db := db.(working := Without(db.working, ids));
      if end == DeleteCommitFailed {
        return;
      }
      db := Commit(db);
      path := Some(dest);
    }
  }
}

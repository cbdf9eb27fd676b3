/** What becomes of one record in the SQLite capture store: when it is lost, when it becomes durable,
    and which body of a key survives. */
module CaptureRecords {
  import opened Records
  import opened CaptureStore
  import opened CaptureStoreProofs

  // -------------------------------------------------------------------------
  // Lost, pending and durable
  // -------------------------------------------------------------------------

  /** The call for one record: one whose fields do not convert is dropped. */
  function InsertCall(db: Db, rec: Record, script: nat -> Attempt): (Db, Outcome) {
    if Extractable(rec) then InsertFrom(db, ExtractKey(rec), ExtractFields(rec), script, 0) else (db, Failed)
  }

  /** One of the attempts made from `attempt` on gets past its execute, whatever its commit does. */
  ghost predicate Executed(script: nat -> Attempt, attempt: nat)
    requires attempt <= MAX_ATTEMPTS
  {
    exists a: nat :: attempt <= a < MAX_ATTEMPTS && a <= FirstUnlocked(script, attempt) && PastExecute(script(a))
  }

  predicate PastExecute(a: Attempt) {
    a.CommitLocked? || a.CommitFailed? || a.Applied?
  }

  lemma ExecutedStep(script: nat -> Attempt, attempt: nat)
    requires attempt <= MAX_ATTEMPTS
    ensures Executed(script, attempt) <==>
            attempt < MAX_ATTEMPTS
            && (PastExecute(script(attempt)) || (IsLock(script(attempt)) && Executed(script, attempt + 1)))
  {
    if attempt < MAX_ATTEMPTS && IsLock(script(attempt)) {
      assert FirstUnlocked(script, attempt) == FirstUnlocked(script, attempt + 1);
    }
    if attempt < MAX_ATTEMPTS && PastExecute(script(attempt)) {
      assert attempt <= FirstUnlocked(script, attempt);
    }
  }

  lemma ExecuteAddsKey(db: Db, key: Key, body: Fields, skip: nat)
    requires Inv(db)
    ensures var after := Execute(db, key, body, skip);
            && Inv(after) && after.committed == db.committed && after.archives == db.archives
            && (forall k :: HasKey(after.working, k) <==> HasKey(db.working, k) || k == key)
            && (forall r :: r in db.working ==> r in after.working)
  {
    ExecuteKeeps(db, key, body, skip);
    var after := Execute(db, key, body, skip);
    var row := Row(db.workingNext + skip, key, body);
    hide Inv;
    if !Clashes(db.working, row) {
      assert after.working == db.working + [row];
    }
  }

  /** What an insert does to both copies of the table. */
  lemma {:induction false} InsertTables(db: Db, key: Key, body: Fields, script: nat -> Attempt, attempt: nat)
    requires Inv(db) && attempt <= MAX_ATTEMPTS
    ensures var (after, outcome) := InsertFrom(db, key, body, script, attempt);
            && (forall k :: HasKey(after.working, k) <==>
                            HasKey(db.working, k) || (k == key && Executed(script, attempt)))
            && (forall r :: r in db.working ==> r in after.working)
            && after.committed == (if outcome == Accepted then after.working else db.committed)
            && (outcome == Accepted ==> HasKey(after.working, key))
    decreases MAX_ATTEMPTS - attempt
  {
    hide Inv, HasKey, Execute, Executed, PastExecute;
    ExecutedStep(script, attempt);
    if attempt < MAX_ATTEMPTS {
      PastExecuteCases(script(attempt));
      match script(attempt)
      case ExecuteLocked => InsertTables(db, key, body, script, attempt + 1);
      case ExecuteFailed =>
      case CommitLocked(skip) =>
        ExecuteAddsKey(db, key, body, skip);
        InsertTables(Execute(db, key, body, skip), key, body, script, attempt + 1);
      case CommitFailed(skip) => ExecuteAddsKey(db, key, body, skip);
      case Applied(skip) => ExecuteAddsKey(db, key, body, skip);
    }
  }

  lemma PastExecuteCases(a: Attempt)
    ensures PastExecute(a) <==> !a.ExecuteLocked? && !a.ExecuteFailed?
  {
  }

  /** After a call the record is in neither the table nor the dump exactly when its key was not there
      before, and its fields do not convert, or no attempt got past its execute and it was not dumped
      after five locks. What a failed commit leaves in the open transaction is still in the table. */
  lemma LostIff(db: Db, rec: Record, script: nat -> Attempt, dumpWorks: bool)
    requires Inv(db)
    ensures var (after, outcome) := InsertCall(db, rec, script);
            var dumped := outcome == GaveUp && dumpWorks;
            !HasKey(after.working, ExtractKey(rec)) && !dumped <==>
              && !HasKey(db.working, ExtractKey(rec))
              && (!Extractable(rec)
                  || (!Executed(script, 0) && !(FirstUnlocked(script, 0) == MAX_ATTEMPTS && dumpWorks)))
  {
    hide Inv, HasKey, Executed, Extractable, ExtractKey, ExtractFields, InsertFrom;
    if Extractable(rec) {
      InsertTables(db, ExtractKey(rec), ExtractFields(rec), script, 0);
      InsertOutcome(db, ExtractKey(rec), ExtractFields(rec), script, 0);
    }
  }

  /** The record survives a crash right after the call iff it was durable before or accepted; and
      once the next insert is accepted, also if only a failed commit had left it behind. */
  lemma DurableIff(db: Db, rec: Record, script: nat -> Attempt, rec': Record, script': nat -> Attempt)
    requires Inv(db)
    ensures var (after, outcome) := InsertCall(db, rec, script);
            var (later, outcome') := InsertCall(after, rec', script');
            var key := ExtractKey(rec);
            && (HasKey(after.committed, key) <==> HasKey(db.committed, key) || outcome == Accepted)
            && (outcome' == Accepted ==>
                  (HasKey(later.committed, key) <==>
                     || HasKey(db.working, key) || key == ExtractKey(rec')
                     || (Extractable(rec) && Executed(script, 0))))
  {
    hide Inv, HasKey, Executed, Extractable, ExtractKey, ExtractFields, InsertFrom;
    var (after, outcome) := InsertCall(db, rec, script);
    if Extractable(rec) {
      InsertTables(db, ExtractKey(rec), ExtractFields(rec), script, 0);
      InsertKeeps(db, ExtractKey(rec), ExtractFields(rec), script, 0);
    }
    if Extractable(rec') {
      InsertTables(after, ExtractKey(rec'), ExtractFields(rec'), script', 0);
    }
  }

  // -------------------------------------------------------------------------
  // Which body survives
  // -------------------------------------------------------------------------

  ghost predicate Archived(db: Db, r: Row) {
    exists d :: d in db.archives && r in db.archives[d]
  }

  /** The row itself, body and all, is in an archive, or where neither a commit nor a crash can
      remove it. */
  ghost predicate RowKept(db: Db, r: Row) {
    Archived(db, r) || (r in db.committed && r in db.working)
  }

  /** ... and no archive holds its key with another body. */
  ghost predicate Settled(db: Db, r: Row) {
    Archived(db, r) || (r in db.committed && r in db.working && !InArchives(db, r.key))
  }

  lemma ArchivesGrow(db: Db, op: Op, d: string, r: Row)
    requires d in db.archives && r in db.archives[d]
    ensures d in Apply(db, op).archives && r in Apply(db, op).archives[d]
  {
    match op
    case InsertOp(rec, script) =>
      if Extractable(rec) {
        hide Extractable, ExtractKey, ExtractFields;
        ArchivesUntouched(db, ExtractKey(rec), ExtractFields(rec), script, 0);
      }
    case ArchiveOp(cutoff, dest, fates, end) =>
      var rows := Selected(db.working, cutoff);
      CopiedRows(ArchiveAt(db, dest), rows, fates, |rows|);
      hide CopyFirst, Selected, Without;
    case RestartOp =>
  }

  lemma {:induction false} ArchivesUntouched(db: Db, key: Key, body: Fields, script: nat -> Attempt, attempt: nat)
    ensures InsertFrom(db, key, body, script, attempt).0.archives == db.archives
    decreases MAX_ATTEMPTS - attempt
  {
    hide InsertOrIgnore;
    if attempt < MAX_ATTEMPTS && script(attempt).CommitLocked? {
      ArchivesUntouched(Execute(db, key, body, script(attempt).skip), key, body, script, attempt + 1);
    } else if attempt < MAX_ATTEMPTS && script(attempt).ExecuteLocked? {
      ArchivesUntouched(db, key, body, script, attempt + 1);
    }
  }

  /** Copying the selected rows: a row of an unarchived key is in the copy whenever its key is, and
      whenever it is listed as archived. */
  lemma CopyOfUnarchivedRow(db: Db, cutoff: string, dest: string, fates: nat -> RowFate, r: Row)
    requires Inv(db) && r in db.working && !InArchives(db, r.key)
    requires forall i: nat :: i < |Selected(db.working, cutoff)| ==> fates(i) != RolledBack
    ensures var rows := Selected(db.working, cutoff);
            var (copy, ids) := CopyFirst(ArchiveAt(db, dest), rows, fates, |rows|);
            && (HasKey(copy, r.key) ==> r in copy)
            && (r.id in ids ==> r in copy)
  {
    var rows := Selected(db.working, cutoff);
    var base := ArchiveAt(db, dest);
    var (copy, ids) := CopyFirst(base, rows, fates, |rows|);
    SelectedMembers(db.working, cutoff);
    assert !HasKey(base, r.key);
    hide CopyFirst, Selected, HasKey, BelowNext;
    if HasKey(copy, r.key) {
      KeyInCopyIsTheRow(db, base, rows, copy, fates, r);
    }
    if r.id in ids {
      ArchivedRowsAreCopiedRows(db, cutoff, dest, fates, r);
      var i: nat :| i < |rows| && fates(i) == Copied && rows[i] == r;
      assert Kept(fates, i, |rows|);
      ArchivedBodyKeptIff(db, cutoff, dest, fates, i);
    }
  }

  lemma KeyInCopyIsTheRow(db: Db, base: Table, rows: Table, copy: Table, fates: nat -> RowFate, r: Row)
    requires WellFormed(db.working) && r in db.working && !HasKey(base, r.key) && HasKey(copy, r.key)
    requires forall x :: x in rows ==> x in db.working
    requires copy == CopyFirst(base, rows, fates, |rows|).0
    ensures r in copy
  {
    CopiedRows(base, rows, fates, |rows|);
    hide CopyFirst;
    var x :| x in copy && x.key == r.key;
    assert x in rows;
  }

  lemma SettledArchive(db: Db, cutoff: string, dest: string, fates: nat -> RowFate, end: ArchiveEnd, r: Row)
    requires Inv(db) && r in db.committed && r in db.working && !InArchives(db, r.key)
    requires forall i: nat :: i < |Selected(db.working, cutoff)| ==> fates(i) != RolledBack
    ensures Settled(ArchiveStep(db, cutoff, dest, fates, end), r)
  {
    var rows := Selected(db.working, cutoff);
    var base := ArchiveAt(db, dest);
    var (copy, ids) := CopyFirst(base, rows, fates, |rows|);
    CopyOfUnarchivedRow(db, cutoff, dest, fates, r);
    WithoutMembers(db.working, ids);
    var after := ArchiveStep(db, cutoff, dest, fates, end);
    hide CopyFirst, Selected, Without, HasKey, Inv;
    if rows != [] {
      assert dest in after.archives;
      if after.archives[dest] == copy && r in copy {
        assert Archived(after, r);
      } else {
        UnarchivedStays(db, after, dest, r);
      }
    }
  }

  lemma UnarchivedStays(db: Db, after: Db, dest: string, r: Row)
    requires !InArchives(db, r.key) && dest in after.archives && !HasKey(after.archives[dest], r.key)
    requires after.archives == db.archives[dest := after.archives[dest]]
    ensures !InArchives(after, r.key)
  {
    hide HasKey;
  }

  lemma SettledStep(db: Db, op: Op, r: Row)
    requires Inv(db) && OrdinaryOp(db, op) && Settled(db, r)
    ensures Settled(Apply(db, op), r)
  {
    if Archived(db, r) {
      var d :| d in db.archives && r in db.archives[d];
      hide Apply, Inv, OrdinaryOp;
      ArchivesGrow(db, op, d, r);
    } else {
      match op
      case InsertOp(rec, script) =>
        hide Extractable, ExtractKey, ExtractFields, InsertFrom, Inv, HasKey, Executed;
        if Extractable(rec) {
          InsertTables(db, ExtractKey(rec), ExtractFields(rec), script, 0);
          ArchivesUntouched(db, ExtractKey(rec), ExtractFields(rec), script, 0);
        }
      case ArchiveOp(cutoff, dest, fates, end) =>
        hide ArchiveStep;
        SettledArchive(db, cutoff, dest, fates, end, r);
      case RestartOp =>
    }
  }

  /** A settled row outlives every ordinary run. */
  lemma {:induction false} SettledRun(db: Db, ops: seq<Op>, r: Row)
    requires Inv(db) && CrashSafe(db) && Ordinary(db, ops) && Settled(db, r)
    ensures Settled(Run(db, ops), r)
    decreases ops
  {
    hide Inv, CrashSafe, OrdinaryOp, Apply, Settled, Guard;
    if ops != [] {
      SettledStep(db, ops[0], r);
      OrdinaryOpKeeps(db, ops[0]);
      SettledRun(Apply(db, ops[0]), ops[1..], r);
    }
  }

  /** The row an accepted insert leaves under its key: the one that was there, or the new one. */
  lemma {:induction false} AcceptedRow(db: Db, key: Key, body: Fields, script: nat -> Attempt, attempt: nat)
    returns (r: Row)
    requires Inv(db) && InsertFrom(db, key, body, script, attempt).1 == Accepted
    ensures var after := InsertFrom(db, key, body, script, attempt).0;
            r.key == key && r in after.working && r in after.committed
    ensures if HasKey(db.working, key) then r in db.working else r.body == body
    decreases MAX_ATTEMPTS - attempt
  {
    hide Inv;
    match script(attempt)
    case ExecuteLocked => r := AcceptedRow(db, key, body, script, attempt + 1);
    case CommitLocked(skip) =>
      var next := Execute(db, key, body, skip);
      var first := RowOfExecute(db, key, body, skip);
      ExecuteAddsKey(db, key, body, skip);
      hide Execute, HasKey;
      r := AcceptedRow(next, key, body, script, attempt + 1);
      OneRowOfKey(next, first, r);
    case Applied(skip) => r := RowOfExecute(db, key, body, skip);
  }

  lemma OneRowOfKey(db: Db, a: Row, b: Row)
    requires Inv(db) && a in db.working && b in db.working && a.key == b.key
    ensures a == b
  {
  }

  lemma RowOfExecute(db: Db, key: Key, body: Fields, skip: nat) returns (r: Row)
    requires Inv(db)
    ensures r.key == key && r in Execute(db, key, body, skip).working
    ensures if HasKey(db.working, key) then r in db.working else r.body == body
  {
    if HasKey(db.working, key) {
      r :| r in db.working && r.key == key;
    } else {
      r := Row(db.workingNext + skip, key, body);
      assert !Clashes(db.working, r);
      assert Execute(db, key, body, skip).working[|db.working|] == r;
    }
  }

  /** The first row of a key: in an archive before the insert, in the table, or the inserted one. */
  ghost predicate IsFirst(db: Db, rec: Record, r: Row) {
    var key := ExtractKey(rec);
    && r.key == key
    && if InArchives(db, key) then Archived(db, r)
       else if HasKey(db.working, key) then r in db.working
       else r.body == ExtractFields(rec)
  }

  /** After an insert is accepted, every ordinary run keeps a row of its key with the body that came
      first: an archived one, or one already in the table, goes before the record's own. */
  lemma FirstBodySurvives(db: Db, rec: Record, script: nat -> Attempt, ops: seq<Op>)
    requires Inv(db) && CrashSafe(db) && InsertCall(db, rec, script).1 == Accepted
    requires Ordinary(InsertCall(db, rec, script).0, ops)
    ensures exists r :: IsFirst(db, rec, r) && RowKept(Run(InsertCall(db, rec, script).0, ops), r)
  {
    var key, body := ExtractKey(rec), ExtractFields(rec);
    var next := InsertCall(db, rec, script).0;
    assert OrdinaryOp(db, InsertOp(rec, script)) && next == Apply(db, InsertOp(rec, script));
    OrdinaryOpKeeps(db, InsertOp(rec, script));
    var r := AcceptedRow(db, key, body, script, 0);
    ArchivesUntouched(db, key, body, script, 0);
    hide Inv, CrashSafe, Ordinary, Run, Guard, Apply, InsertFrom, Extractable, ExtractKey, ExtractFields, HasKey;
    if InArchives(db, key) {
      r := ArchivedRowOf(db, key);
    }
    assert IsFirst(db, rec, r);
    assert Settled(next, r);
    SettledRun(next, ops, r);
  }

  lemma ArchivedRowOf(db: Db, key: Key) returns (r: Row)
    requires InArchives(db, key)
    ensures r.key == key && Archived(db, r)
  {
    var d :| d in db.archives && HasKey(db.archives[d], key);
    r :| r in db.archives[d] && r.key == key;
  }

  /** The first body need not be that of an accepted insert: an insert whose commit failed was never
      accepted, yet its row is what the next insert of that key commits. */
  lemma PendingBodyGoesFirst(key: Key, body: Fields, other: Fields, script: nat -> Attempt, again: nat -> Attempt)
    requires script(0) == CommitFailed(0) && again(0) == Applied(0)
    ensures var (pending, outcome) := InsertFrom(EMPTY, key, body, script, 0);
            var (after, outcome') := InsertFrom(pending, key, other, again, 0);
            && outcome == Failed && outcome' == Accepted
            && after.committed == [Row(0, key, body)]
  {
    var row := Row(0, key, body);
    assert [] + [row] == [row];
    assert row in [row] && Clashes([row], Row(1, key, other));
  }
}

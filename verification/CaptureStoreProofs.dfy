/** What the SQLite capture store keeps: over every run of inserts, archives and crashes,
    each accepted (bot_ip, timestamp) key stays in the main table or in an archive. */
module CaptureStoreProofs {
  import opened Records
  import opened CaptureStore
  import opened TextOrder

  predicate InArchives(db: Db, k: Key) {
    exists d :: d in db.archives && HasKey(db.archives[d], k)
  }

  /** A key is safe when neither a commit nor a crash can make it disappear. */
  predicate Safe(db: Db, k: Key) {
    InArchives(db, k) || (HasKey(db.committed, k) && HasKey(db.working, k))
  }

  predicate WellFormed(t: Table) {
    forall i, j :: 0 <= i < j < |t| ==> t[i].id != t[j].id && t[i].key != t[j].key
  }

  predicate BelowNext(t: Table, next: nat) {
    forall r :: r in t ==> r.id < next
  }

  ghost predicate Holds(db: Db, r: Row) {
    || r in db.committed
    || r in db.working
    || exists d :: d in db.archives && r in db.archives[d]
  }

  /** Ids are never reused: every id is below its counter and belongs to one key for ever. */
  ghost predicate Inv(db: Db) {
    && WellFormed(db.committed) && WellFormed(db.working)
    && BelowNext(db.committed, db.committedNext) && BelowNext(db.working, db.workingNext)
    && db.committedNext <= db.workingNext
    && (forall d :: d in db.archives ==> BelowNext(db.archives[d], db.workingNext))
    && (forall r, s :: Holds(db, r) && Holds(db, s) && r.id == s.id ==> r.key == s.key)
  }

  /** No archive holds an id that only the open transaction has issued. */
  predicate CrashSafe(db: Db) {
    forall d :: d in db.archives ==> BelowNext(db.archives[d], db.committedNext)
  }

  // -------------------------------------------------------------------------
  // Tables
  // -------------------------------------------------------------------------

  lemma {:induction false} SelectedMembers(t: Table, cutoff: string)
    ensures forall r :: r in Selected(t, cutoff) <==> r in t && Before(r.key.timestamp, cutoff)
    ensures WellFormed(t) ==> WellFormed(Selected(t, cutoff))
  {
    if t != [] {
      SelectedMembers(t[..|t| - 1], cutoff);
      assert t == t[..|t| - 1] + [t[|t| - 1]];
      if WellFormed(t) {
        forall r | r in t[..|t| - 1]
          ensures r.id != t[|t| - 1].id && r.key != t[|t| - 1].key
        {
        }
      }
    }
  }

  lemma {:induction false} WithoutMembers(t: Table, ids: seq<nat>)
    ensures forall r :: r in Without(t, ids) <==> r in t && r.id !in ids
    ensures WellFormed(t) ==> WellFormed(Without(t, ids))
  {
    if t != [] {
      WithoutMembers(t[..|t| - 1], ids);
      assert t == t[..|t| - 1] + [t[|t| - 1]];
      if WellFormed(t) {
        forall r | r in t[..|t| - 1]
          ensures r.id != t[|t| - 1].id && r.key != t[|t| - 1].key
        {
        }
      }
    }
  }

  /** Row i reached the archive and no later error rolled it back. */
  predicate Kept(fates: nat -> RowFate, i: nat, n: nat) {
    fates(i) == Copied && forall j: nat :: i < j < n ==> fates(j) != RolledBack
  }

  lemma {:induction false} CopiedRows(base: Table, rows: Table, fates: nat -> RowFate, n: nat)
    requires n <= |rows|
    ensures var copy := CopyFirst(base, rows, fates, n).0;
            && (forall r :: r in base ==> r in copy)
            && (forall r :: r in copy ==> r in base || exists i: nat :: i < n && Kept(fates, i, n) && r == rows[i])
            && (forall i: nat :: i < n && Kept(fates, i, n) ==> Clashes(copy, rows[i]))
  {
    if n > 0 {
      var before := CopyFirst(base, rows, fates, n - 1).0;
      var copy := CopyFirst(base, rows, fates, n).0;
      CopiedRows(base, rows, fates, n - 1);
      if fates(n - 1) == RolledBack {
        forall i: nat | i < n
          ensures !Kept(fates, i, n)
        {
          assert i == n - 1 || fates(n - 1) == RolledBack;
        }
      } else {
        forall i: nat | i < n - 1
          ensures Kept(fates, i, n) <==> Kept(fates, i, n - 1)
        {
        }
        if fates(n - 1) == Copied {
          assert Kept(fates, n - 1, n);
        }
        forall i: nat | i < n && Kept(fates, i, n)
          ensures Clashes(copy, rows[i])
        {
        }
        forall r | r in copy
          ensures r in base || exists i: nat :: i < n && Kept(fates, i, n) && r == rows[i]
        {
          if r in before && r !in base {
            var i: nat :| i < n - 1 && Kept(fates, i, n - 1) && r == rows[i];
            assert Kept(fates, i, n);
          }
        }
      }
    }
  }

  /** An id is listed as archived exactly when the row of that id was copied, whatever was rolled
      back afterwards. */
  lemma {:induction false} CopiedIds(base: Table, rows: Table, fates: nat -> RowFate, n: nat, id: nat)
    requires n <= |rows|
    ensures id in CopyFirst(base, rows, fates, n).1 <==>
            exists i: nat :: i < n && fates(i) == Copied && rows[i].id == id
  {
    if n > 0 {
      var before := CopyFirst(base, rows, fates, n - 1).1;
      CopiedIds(base, rows, fates, n - 1, id);
      if id in CopyFirst(base, rows, fates, n).1 {
        if id in before {
          var i: nat :| i < n - 1 && fates(i) == Copied && rows[i].id == id;
          assert i < n && fates(i) == Copied && rows[i].id == id;
        } else {
          assert n - 1 < n && fates(n - 1) == Copied && rows[n - 1].id == id;
        }
      }
      if i: nat :| i < n && fates(i) == Copied && rows[i].id == id {
        if i < n - 1 {
          assert i < n - 1 && fates(i) == Copied && rows[i].id == id;
        }
      }
    }
  }

  lemma CopiedTable(base: Table, rows: Table, fates: nat -> RowFate, n: nat)
    requires n <= |rows|
    ensures var (copy, ids) := CopyFirst(base, rows, fates, n);
            && (forall r :: r in base ==> r in copy)
            && (forall r :: r in copy ==> r in base || exists i: nat :: i < n && Kept(fates, i, n) && r == rows[i])
            && (forall i: nat :: i < n && Kept(fates, i, n) ==> Clashes(copy, rows[i]))
            && (forall id :: id in ids <==> exists i: nat :: i < n && fates(i) == Copied && rows[i].id == id)
  {
    hide CopyFirst, Kept, Clashes;
    CopiedRows(base, rows, fates, n);
    forall id
      ensures id in CopyFirst(base, rows, fates, n).1 <==>
              exists i: nat :: i < n && fates(i) == Copied && rows[i].id == id
    {
      CopiedIds(base, rows, fates, n, id);
    }
  }

  // -------------------------------------------------------------------------
  // Insert
  // -------------------------------------------------------------------------

  lemma ExecuteKeeps(db: Db, key: Key, body: Fields, skip: nat)
    requires Inv(db)
    ensures var after := Execute(db, key, body, skip);
            && Inv(after)
            && HasKey(after.working, key)
            && (forall k :: Safe(db, k) ==> Safe(after, k))
  {
    var row := Row(db.workingNext + skip, key, body);
    var after := Execute(db, key, body, skip);
    if Clashes(db.working, row) {
      assert HasKey(db.working, key);
    } else {
      FreshRowKeepsInv(db, row);
      assert after.working == db.working + [row];
      assert row in after.working;
      forall k | HasKey(db.working, k)
        ensures HasKey(after.working, k)
      {
        var r :| r in db.working && r.key == k;
        assert r in after.working;
      }
      hide Inv;
    }
  }

  lemma FreshRowKeepsInv(db: Db, row: Row)
    requires Inv(db) && row.id >= db.workingNext && !Clashes(db.working, row)
    ensures Inv(db.(working := db.working + [row], workingNext := row.id + 1))
  {
    var after := db.(working := db.working + [row], workingNext := row.id + 1);
    forall r | Holds(after, r)
      ensures r == row || (Holds(db, r) && r.id < db.workingNext)
    {
    }
  }

  lemma CommitKeeps(db: Db)
    requires Inv(db)
    ensures Inv(Commit(db))
    ensures forall k :: HasKey(db.working, k) || Safe(db, k) ==> Safe(Commit(db), k)
  {
    var after := Commit(db);
    forall r | Holds(after, r)
      ensures Holds(db, r)
    {
    }
  }

  /** After a crash every id in an archive is below the counter again exactly when no archive holds
      an id that only the lost transaction had issued. */
  lemma CrashKeepsInvIff(db: Db)
    requires Inv(db)
    ensures Inv(Crash(db)) <==> CrashSafe(db)
    ensures forall k :: Safe(db, k) ==> Safe(Crash(db), k)
  {
    forall r | Holds(Crash(db), r)
      ensures Holds(db, r)
    {
    }
  }

  /** Whatever the five attempts meet, an insert loses nothing that was safe, and an accepted
      record's key is safe afterwards. */
  lemma {:induction false} InsertKeeps(db: Db, key: Key, body: Fields, script: nat -> Attempt, attempt: nat)
    requires Inv(db)
    ensures var (after, outcome) := InsertFrom(db, key, body, script, attempt);
            && Inv(after)
            && after.archives == db.archives
            && (forall k :: Safe(db, k) ==> Safe(after, k))
            && (outcome == Accepted ==> Safe(after, key))
            && (outcome != Accepted ==> after.committed == db.committed)
    decreases MAX_ATTEMPTS - attempt
  {
    hide Inv, Safe, InsertOrIgnore, HasKey;
    if attempt < MAX_ATTEMPTS {
      match script(attempt)
      case ExecuteLocked => InsertKeeps(db, key, body, script, attempt + 1);
      case ExecuteFailed =>
      case CommitLocked(skip) =>
        ExecuteKeeps(db, key, body, skip);
        InsertKeeps(Execute(db, key, body, skip), key, body, script, attempt + 1);
      case CommitFailed(skip) => ExecuteKeeps(db, key, body, skip);
      case Applied(skip) =>
        ExecuteKeeps(db, key, body, skip);
        CommitKeeps(Execute(db, key, body, skip));
    }
  }

  predicate IsLock(a: Attempt) {
    a.ExecuteLocked? || a.CommitLocked?
  }

  /** The first attempt that is not a lock failure, or MAX_ATTEMPTS. */
  function FirstUnlocked(script: nat -> Attempt, attempt: nat): (a: nat)
    requires attempt <= MAX_ATTEMPTS
    ensures attempt <= a <= MAX_ATTEMPTS
    ensures a < MAX_ATTEMPTS ==> !IsLock(script(a))
    ensures forall b: nat :: attempt <= b < a ==> IsLock(script(b))
    decreases MAX_ATTEMPTS - attempt
  {
    if attempt == MAX_ATTEMPTS || !IsLock(script(attempt)) then attempt
    else FirstUnlocked(script, attempt + 1)
  }

  /** Accepted iff the first attempt that meets no lock succeeds, given up (and dumped) iff all
      five meet a lock. Any other error drops the record. */
  lemma {:induction false} InsertOutcome(db: Db, key: Key, body: Fields, script: nat -> Attempt, attempt: nat)
    requires attempt <= MAX_ATTEMPTS
    ensures var outcome := InsertFrom(db, key, body, script, attempt).1;
            var a := FirstUnlocked(script, attempt);
            && (outcome == GaveUp <==> a == 5)
            && (outcome == Accepted <==> a < 5 && script(a).Applied?)
    decreases MAX_ATTEMPTS - attempt
  {
    hide Execute, Commit, Crash;
    if attempt < MAX_ATTEMPTS {
      match script(attempt)
      case ExecuteLocked => InsertOutcome(db, key, body, script, attempt + 1);
      case CommitLocked(skip) => InsertOutcome(Execute(db, key, body, skip), key, body, script, attempt + 1);
      case ExecuteFailed =>
      case CommitFailed(_) =>
      case Applied(_) =>
    }
  }

  // -------------------------------------------------------------------------
  // Archive
  // -------------------------------------------------------------------------

  predicate Visible(db: Db, k: Key) {
    HasKey(db.working, k) || InArchives(db, k)
  }

  predicate Deletes(end: ArchiveEnd) {
    end == Finished || end == DeleteCommitFailed
  }

  /** Some row was counted as archived, then rolled back, and no archive has its key. */
  predicate Lossy(db: Db, cutoff: string, fates: nat -> RowFate) {
    var rows := Selected(db.working, cutoff);
    exists i: nat, j: nat ::
      i < j < |rows| && fates(i) == Copied && fates(j) == RolledBack && !InArchives(db, rows[i].key)
  }

  /** After the copy loop the archive holds the key of every row it kept. */
  lemma CopyHoldsKeptKeys(db: Db, cutoff: string, dest: string, fates: nat -> RowFate, i: nat)
    requires Inv(db)
    requires i < |Selected(db.working, cutoff)| && Kept(fates, i, |Selected(db.working, cutoff)|)
    ensures var rows := Selected(db.working, cutoff);
            HasKey(CopyFirst(ArchiveAt(db, dest), rows, fates, |rows|).0, rows[i].key)
  {
    var rows := Selected(db.working, cutoff);
    var base := ArchiveAt(db, dest);
    var copy := CopyFirst(base, rows, fates, |rows|).0;
    SelectedMembers(db.working, cutoff);
    CopiedTable(base, rows, fates, |rows|);
    var r :| r in copy && (r.id == rows[i].id || r.key == rows[i].key);
    assert rows[i] in rows && Holds(db, rows[i]);
    assert Holds(db, r) by {
      if r !in base {
        var j: nat :| j < |rows| && r == rows[j];
        assert r in rows;
      }
    }
  }

  lemma ArchiveRowsKeepInv(db: Db, dest: string, t: Table)
    requires Inv(db)
    requires forall r :: r in t ==> Holds(db, r)
    ensures Inv(db.(archives := db.archives[dest := t]))
  {
    var after := db.(archives := db.archives[dest := t]);
    forall r | r in t
      ensures r.id < db.workingNext
    {
    }
    assert forall r :: Holds(after, r) ==> Holds(db, r);
  }

  lemma CopyKeepsInv(db: Db, cutoff: string, dest: string, fates: nat -> RowFate)
    requires Inv(db)
    ensures var rows := Selected(db.working, cutoff);
            var copy := CopyFirst(ArchiveAt(db, dest), rows, fates, |rows|).0;
            && Inv(db.(archives := db.archives[dest := copy]))
            && Inv(db.(archives := db.archives[dest := ArchiveAt(db, dest)]))
            && (forall k :: InArchives(db, k) ==> InArchives(db.(archives := db.archives[dest := copy]), k))
            && (forall k :: InArchives(db, k) <==>
                            InArchives(db.(archives := db.archives[dest := ArchiveAt(db, dest)]), k))
  {
    var rows := Selected(db.working, cutoff);
    var base := ArchiveAt(db, dest);
    var copy := CopyFirst(base, rows, fates, |rows|).0;
    SelectedMembers(db.working, cutoff);
    CopiedTable(base, rows, fates, |rows|);
    ArchiveRowsKeepInv(db, dest, copy);
    ArchiveRowsKeepInv(db, dest, base);
    forall k | InArchives(db, k)
      ensures InArchives(db.(archives := db.archives[dest := copy]), k)
      ensures InArchives(db.(archives := db.archives[dest := base]), k)
    {
      var d :| d in db.archives && HasKey(db.archives[d], k);
      assert d in db.archives[dest := copy] && d in db.archives[dest := base];
      assert HasKey(db.archives[dest := copy][d], k);
    }
    forall k | InArchives(db.(archives := db.archives[dest := base]), k)
      ensures InArchives(db, k)
    {
      var d :| d in db.archives[dest := base] && HasKey(db.archives[dest := base][d], k);
      assert d in db.archives;
    }
  }

  lemma DeleteKeepsInv(db: Db, ids: seq<nat>)
    requires Inv(db)
    ensures Inv(db.(working := Without(db.working, ids)))
  {
    WithoutMembers(db.working, ids);
    var after := db.(working := Without(db.working, ids));
    assert forall r :: Holds(after, r) ==> Holds(db, r);
  }

  /** The delete step: every key stays visible, exactly when the copy loop was not lossy. */
  lemma CopyAndDeleteVisible(db: Db, cutoff: string, dest: string, fates: nat -> RowFate)
    requires Inv(db)
    ensures var rows := Selected(db.working, cutoff);
            var (copy, ids) := CopyFirst(ArchiveAt(db, dest), rows, fates, |rows|);
            var after := db.(archives := db.archives[dest := copy], working := Without(db.working, ids));
            (forall k :: Visible(db, k) ==> Visible(after, k)) <==> !Lossy(db, cutoff, fates)
  {
    var rows := Selected(db.working, cutoff);
    var base := ArchiveAt(db, dest);
    var (copy, ids) := CopyFirst(base, rows, fates, |rows|);
    var after := db.(archives := db.archives[dest := copy], working := Without(db.working, ids));
    SelectedMembers(db.working, cutoff);
    WithoutMembers(db.working, ids);
    CopiedTable(base, rows, fates, |rows|);
    CopyKeepsInv(db, cutoff, dest, fates);
    assert forall k :: InArchives(after, k) <==> InArchives(db.(archives := db.archives[dest := copy]), k);
    if Lossy(db, cutoff, fates) {
      var i: nat, j: nat :|
        i < j < |rows| && fates(i) == Copied && fates(j) == RolledBack && !InArchives(db, rows[i].key);
      LossyRowIsGone(db, cutoff, dest, fates, i, j);
    } else {
      forall k | Visible(db, k)
        ensures Visible(after, k)
      {
        if !InArchives(db, k) {
          var r :| r in db.working && r.key == k;
          if r.id !in ids {
            assert r in after.working;
          } else {
            var i: nat :| i < |rows| && fates(i) == Copied && rows[i].id == r.id;
            assert rows[i] in rows && rows[i] in db.working;
            assert Holds(db, r) && Holds(db, rows[i]);
            assert Kept(fates, i, |rows|);
            CopyHoldsKeptKeys(db, cutoff, dest, fates, i);
            assert dest in after.archives && HasKey(after.archives[dest], k);
          }
        }
      }
    }
  }

  lemma LossyRowIsGone(db: Db, cutoff: string, dest: string, fates: nat -> RowFate, i: nat, j: nat)
    requires Inv(db)
    requires i < j < |Selected(db.working, cutoff)|
    requires fates(i) == Copied && fates(j) == RolledBack
    requires !InArchives(db, Selected(db.working, cutoff)[i].key)
    ensures var rows := Selected(db.working, cutoff);
            var (copy, ids) := CopyFirst(ArchiveAt(db, dest), rows, fates, |rows|);
            var after := db.(archives := db.archives[dest := copy], working := Without(db.working, ids));
            Visible(db, rows[i].key) && !Visible(after, rows[i].key)
  {
    hide CopyFirst, Selected, Without, BelowNext, InsertOrIgnore;
    var rows := Selected(db.working, cutoff);
    var base := ArchiveAt(db, dest);
    var (copy, ids) := CopyFirst(base, rows, fates, |rows|);
    SelectedMembers(db.working, cutoff);
    CopiedIds(base, rows, fates, |rows|, rows[i].id);
    assert rows[i] in rows && rows[i] in db.working;
    CopiedRows(base, rows, fates, |rows|);
    assert !Kept(fates, i, |rows|);
    SelectedOnce(rows, copy, base, fates, i);
    OnlyRowOfItsKeyGoes(db, dest, copy, ids, rows[i]);
  }

  /** A row that was rolled back is not in the copy, nor is its key. */
  lemma SelectedOnce(rows: Table, copy: Table, base: Table, fates: nat -> RowFate, i: nat)
    requires i < |rows| && WellFormed(rows) && !Kept(fates, i, |rows|) && !HasKey(base, rows[i].key)
    requires forall r :: r in copy ==>
               r in base || exists j: nat :: j < |rows| && Kept(fates, j, |rows|) && r == rows[j]
    ensures !HasKey(copy, rows[i].key)
  {
    hide Kept;
  }

  /** The row of a key is deleted, and no archive has the key: it is gone. */
  lemma OnlyRowOfItsKeyGoes(db: Db, dest: string, copy: Table, ids: seq<nat>, row: Row)
    requires WellFormed(db.working) && row in db.working && row.id in ids
    requires !InArchives(db, row.key) && !HasKey(copy, row.key)
    ensures var after := db.(archives := db.archives[dest := copy], working := Without(db.working, ids));
            Visible(db, row.key) && !Visible(after, row.key)
  {
    hide Without;
    WithoutMembers(db.working, ids);
    assert forall r :: r in db.working && r.key == row.key ==> r == row;
  }

  /** An archive call that deletes keeps every key visible if and only if no copied row was
      rolled back before the archive commit (or its key already sat in some archive). */
  lemma ArchiveVisibleIff(db: Db, cutoff: string, dest: string, fates: nat -> RowFate, end: ArchiveEnd)
    requires Inv(db) && Deletes(end)
    ensures (forall k :: Visible(db, k) ==> Visible(ArchiveStep(db, cutoff, dest, fates, end), k))
            <==> !Lossy(db, cutoff, fates)
  {
    var rows := Selected(db.working, cutoff);
    if rows != [] {
      var (copy, ids) := CopyFirst(ArchiveAt(db, dest), rows, fates, |rows|);
      CopiedTable(ArchiveAt(db, dest), rows, fates, |rows|);
      CopyKeepsInv(db, cutoff, dest, fates);
      CopyAndDeleteVisible(db, cutoff, dest, fates);
      var copied := db.(archives := db.archives[dest := copy]);
      var deleted := copied.(working := Without(db.working, ids));
      var after := ArchiveStep(db, cutoff, dest, fates, end);
      if ids == [] {
        assert after == copied;
        forall i: nat | i < |rows|
          ensures fates(i) != Copied
        {
          assert fates(i) == Copied ==> rows[i].id in ids;
        }
      } else {
        assert after.working == deleted.working && after.archives == deleted.archives;
        assert forall k :: Visible(after, k) <==> Visible(deleted, k);
      }
    }
  }

  /** What must hold for one archive call not to endanger an accepted key. */
  predicate ArchiveGuard(db: Db, cutoff: string, dest: string, fates: nat -> RowFate, end: ArchiveEnd) {
    var rows := Selected(db.working, cutoff);
    var copy := CopyFirst(ArchiveAt(db, dest), rows, fates, |rows|).0;
    match end
    case Finished => !Lossy(db, cutoff, fates)
    case DeleteCommitFailed => !Lossy(db, cutoff, fates)
    case CrashBeforeArchiveCommit => CrashSafe(db)
    case CrashBeforeMainCommit => CrashSafe(db) && BelowNext(copy, db.committedNext)
    case ArchiveCommitFailed => true
    case DeleteFailed => true
  }

  lemma ArchiveKeeps(db: Db, cutoff: string, dest: string, fates: nat -> RowFate, end: ArchiveEnd)
    requires Inv(db) && ArchiveGuard(db, cutoff, dest, fates, end)
    ensures var after := ArchiveStep(db, cutoff, dest, fates, end);
            Inv(after) && forall k :: Safe(db, k) ==> Safe(after, k)
  {
    var rows := Selected(db.working, cutoff);
    if rows != [] {
      var base := ArchiveAt(db, dest);
      var (copy, ids) := CopyFirst(base, rows, fates, |rows|);
      var created := db.(archives := db.archives[dest := base]);
      var copied := db.(archives := db.archives[dest := copy]);
      CopyKeepsInv(db, cutoff, dest, fates);
      match end
      case ArchiveCommitFailed =>
      case DeleteFailed =>
      case CrashBeforeArchiveCommit => CrashKeepsInvIff(created);
      case CrashBeforeMainCommit => CrashKeepsInvIff(copied);
      case _ =>
        if ids != [] {
          var deleted := copied.(working := Without(db.working, ids));
          DeleteKeepsInv(copied, ids);
          ArchiveVisibleIff(db, cutoff, dest, fates, end);
          assert forall k :: Visible(ArchiveStep(db, cutoff, dest, fates, end), k) ==> Visible(deleted, k);
          forall k | Safe(db, k)
            ensures Safe(deleted, k)
          {
            assert Visible(db, k);
            assert Visible(deleted, k);
          }
          if end == Finished {
            CommitKeeps(deleted);
          }
        }
    }
  }

  lemma ArchivedRowsAreCopiedRows(db: Db, cutoff: string, dest: string, fates: nat -> RowFate, r: Row)
    requires Inv(db) && r in db.working
    ensures var rows := Selected(db.working, cutoff);
            r.id in ArchivedIds(db, cutoff, dest, fates) <==>
            exists i: nat :: i < |rows| && fates(i) == Copied && rows[i] == r
  {
    hide CopyFirst, Selected;
    var rows := Selected(db.working, cutoff);
    SelectedMembers(db.working, cutoff);
    CopiedIds(ArchiveAt(db, dest), rows, fates, |rows|, r.id);
    if r.id in ArchivedIds(db, cutoff, dest, fates) {
      var i: nat :| i < |rows| && fates(i) == Copied && rows[i].id == r.id;
      assert rows[i] in rows && rows[i] in db.working;
      assert i < |rows| && fates(i) == Copied && rows[i] == r;
    }
    if i: nat :| i < |rows| && fates(i) == Copied && rows[i] == r {
      assert i < |rows| && fates(i) == Copied && rows[i].id == r.id;
    }
  }

  /** Apart from a crash, which falls back to the committed rows, the only rows that leave the
      main table are old ones that were counted as archived, and no row enters it. */
  lemma ArchiveRemovesOnlyCopiedOldRows(db: Db, cutoff: string, dest: string, fates: nat -> RowFate, end: ArchiveEnd)
    requires Inv(db) && !end.CrashBeforeArchiveCommit? && !end.CrashBeforeMainCommit?
    ensures var after := ArchiveStep(db, cutoff, dest, fates, end);
            forall r :: r in after.working <==>
                        r in db.working && !(Deletes(end) && r.id in ArchivedIds(db, cutoff, dest, fates))
    ensures forall r :: r in db.working && !Before(r.key.timestamp, cutoff) ==>
                        r in ArchiveStep(db, cutoff, dest, fates, end).working
  {
    var ids := ArchivedIds(db, cutoff, dest, fates);
    SelectedMembers(db.working, cutoff);
    WithoutMembers(db.working, ids);
    forall r | r in db.working && !Before(r.key.timestamp, cutoff)
      ensures r.id !in ids
    {
      ArchivedRowsAreCopiedRows(db, cutoff, dest, fates, r);
    }
    if Selected(db.working, cutoff) == [] {
      assert ids == [];
    }
  }

  /** In time: a row stamped at or after the moment of the cutoff stays in the main table, whichever
      rows were copied and however the call ends; a crash takes it only if it was not committed. */
  lemma RowsFromTheCutoffOnStay(db: Db, cutoff: Moment, dest: string, fates: nat -> RowFate, end: ArchiveEnd,
                                r: Row, m: Moment)
    requires Inv(db) && r in db.working && IsMoment(m) && IsMoment(cutoff)
    requires r.key.timestamp == Written(m) && !Earlier(m, cutoff)
    requires end.CrashBeforeArchiveCommit? || end.CrashBeforeMainCommit? ==> r in db.committed
    ensures r in ArchiveStep(db, Written(cutoff), dest, fates, end).working
  {
    hide Before, Earlier, Written;
    MomentsInOrder(m, cutoff);
    if end.CrashBeforeArchiveCommit? || end.CrashBeforeMainCommit? {
      hide Selected, Inv, CopyFirst;
    } else {
      hide Selected, Inv, CopyFirst, ArchiveStep, ArchivedIds;
      ArchiveRemovesOnlyCopiedOldRows(db, Written(cutoff), dest, fates, end);
    }
  }

  /** A finished call whose copies all succeed parts the table at the cutoff: a row stays exactly when
      its moment is not earlier, and one that leaves has its key in an archive. */
  lemma ArchiveSplitsAtTheCutoff(db: Db, cutoff: Moment, dest: string, fates: nat -> RowFate, r: Row, m: Moment)
    requires Inv(db) && r in db.working && IsMoment(m) && IsMoment(cutoff)
    requires r.key.timestamp == Written(m) && forall i: nat :: fates(i) == Copied
    ensures var after := ArchiveStep(db, Written(cutoff), dest, fates, Finished);
            && (r in after.working <==> !Earlier(m, cutoff))
            && (Earlier(m, cutoff) ==> InArchives(after, r.key))
  {
    hide Before, Earlier, Written;
    MomentsInOrder(m, cutoff);
    if !Earlier(m, cutoff) {
      RowsFromTheCutoffOnStay(db, cutoff, dest, fates, Finished, r, m);
    } else {
      OldRowIsMoved(db, Written(cutoff), dest, fates, r);
    }
  }

  lemma OldRowIsMoved(db: Db, cutoff: string, dest: string, fates: nat -> RowFate, r: Row)
    requires Inv(db) && r in db.working && Before(r.key.timestamp, cutoff)
    requires forall i: nat :: fates(i) == Copied
    ensures var after := ArchiveStep(db, cutoff, dest, fates, Finished);
            r !in after.working && InArchives(after, r.key)
  {
    var rows := Selected(db.working, cutoff);
    var after := ArchiveStep(db, cutoff, dest, fates, Finished);
    SelectedMembers(db.working, cutoff);
    ArchivedRowsAreCopiedRows(db, cutoff, dest, fates, r);
    ArchiveRemovesOnlyCopiedOldRows(db, cutoff, dest, fates, Finished);
    assert !Lossy(db, cutoff, fates);
    ArchiveVisibleIff(db, cutoff, dest, fates, Finished);
    hide ArchiveStep, ArchivedIds, Selected, CopyFirst, Before, InArchives, Lossy;
    var i: nat :| i < |rows| && rows[i] == r;
    assert Visible(db, r.key) && Visible(after, r.key);
  }

  lemma {:induction false} CopiedBody(base: Table, rows: Table, fates: nat -> RowFate, i: nat, n: nat)
    requires i < n <= |rows| && Kept(fates, i, n) && WellFormed(rows)
    requires forall r, j: nat :: r in base && j < |rows| && r.id == rows[j].id ==> r.key == rows[j].key
    ensures rows[i] in CopyFirst(base, rows, fates, n).0 <==> rows[i] in base || !HasKey(base, rows[i].key)
    decreases n
  {
    if i < n - 1 {
      hide WellFormed, HasKey, Clashes;
      assert fates(n - 1) != RolledBack;
      CopiedBody(base, rows, fates, i, n - 1);
      RowIsNewOnce(base, rows, fates, i, n - 1);
    } else {
      CopiedLast(base, rows, fates, i);
    }
  }

  lemma RowIsNewOnce(base: Table, rows: Table, fates: nat -> RowFate, i: nat, n: nat)
    requires i < n < |rows| && WellFormed(rows)
    ensures rows[n] != rows[i]
  {
  }

  lemma CopiedLast(base: Table, rows: Table, fates: nat -> RowFate, i: nat)
    requires i < |rows| && fates(i) == Copied && WellFormed(rows)
    requires forall r, j: nat :: r in base && j < |rows| && r.id == rows[j].id ==> r.key == rows[j].key
    ensures rows[i] in CopyFirst(base, rows, fates, i + 1).0 <==> rows[i] in base || !HasKey(base, rows[i].key)
  {
    var before := CopyFirst(base, rows, fates, i).0;
    CopiedTable(base, rows, fates, i);
    assert CopyFirst(base, rows, fates, i + 1).0 == InsertOrIgnore(before, rows[i]);
    hide CopyFirst;
    assert forall r :: r in before && r !in base ==> r.id != rows[i].id && r.key != rows[i].key;
  }

  /** The archived row itself, not just its key, is in the archive exactly when the archive had
      no row of that key yet (or had this very row). A key captured again after it was archived
      keeps its first body only. */
  lemma ArchivedBodyKeptIff(db: Db, cutoff: string, dest: string, fates: nat -> RowFate, i: nat)
    requires Inv(db)
    requires i < |Selected(db.working, cutoff)| && Kept(fates, i, |Selected(db.working, cutoff)|)
    ensures var rows := Selected(db.working, cutoff);
            var base := ArchiveAt(db, dest);
            rows[i] in CopyFirst(base, rows, fates, |rows|).0 <==> rows[i] in base || !HasKey(base, rows[i].key)
  {
    var rows := Selected(db.working, cutoff);
    SelectedMembers(db.working, cutoff);
    assert forall j: nat :: j < |rows| ==> rows[j] in rows && Holds(db, rows[j]);
    assert forall r :: r in ArchiveAt(db, dest) ==> Holds(db, r);
    CopiedBody(ArchiveAt(db, dest), rows, fates, i, |rows|);
  }

  // -------------------------------------------------------------------------
  // Whole runs
  // -------------------------------------------------------------------------

  datatype Op =
    | InsertOp(rec: Record, script: nat -> Attempt)
    | ArchiveOp(cutoff: string, dest: string, fates: nat -> RowFate, end: ArchiveEnd)
    | RestartOp

  function Apply(db: Db, op: Op): Db {
    match op
    case InsertOp(rec, script) =>
      if Extractable(rec) then InsertFrom(db, ExtractKey(rec), ExtractFields(rec), script, 0).0 else db
    case ArchiveOp(cutoff, dest, fates, end) => ArchiveStep(db, cutoff, dest, fates, end)
    case RestartOp => Crash(db)
  }

  function AcceptedBy(db: Db, op: Op): set<Key> {
    if op.InsertOp? && Extractable(op.rec) &&
       InsertFrom(db, ExtractKey(op.rec), ExtractFields(op.rec), op.script, 0).1 == Accepted
    then {ExtractKey(op.rec)}
    else {}
  }

  predicate Guard(db: Db, op: Op) {
    match op
    case InsertOp(_, _) => true
    case ArchiveOp(cutoff, dest, fates, end) => ArchiveGuard(db, cutoff, dest, fates, end)
    case RestartOp => CrashSafe(db)
  }

  function Run(db: Db, ops: seq<Op>): Db
    decreases ops
  {
    if ops == [] then db else Run(Apply(db, ops[0]), ops[1..])
  }

  function AcceptedIn(db: Db, ops: seq<Op>): set<Key>
    decreases ops
  {
    if ops == [] then {} else AcceptedBy(db, ops[0]) + AcceptedIn(Apply(db, ops[0]), ops[1..])
  }

  predicate Guarded(db: Db, ops: seq<Op>)
    decreases ops
  {
    ops != [] ==> Guard(db, ops[0]) && Guarded(Apply(db, ops[0]), ops[1..])
  }

  const EMPTY := Db([], 0, [], 0, map[])

  lemma StepKeeps(db: Db, op: Op)
    requires Inv(db) && Guard(db, op)
    ensures Inv(Apply(db, op))
    ensures forall k :: Safe(db, k) || k in AcceptedBy(db, op) ==> Safe(Apply(db, op), k)
  {
    match op
    case InsertOp(rec, script) => InsertKeeps(db, ExtractKey(rec), ExtractFields(rec), script, 0);
    case ArchiveOp(cutoff, dest, fates, end) => ArchiveKeeps(db, cutoff, dest, fates, end);
    case RestartOp => CrashKeepsInvIff(db);
  }

  /** The central promise: in a run of inserts, archives, per-row archive failures, failed
      commits and crashes at any point, every key accepted on the way, and every key that was
      safe before, is in the main table or in an archive at the end. */
  lemma {:induction false} AcceptedKeysSurvive(db: Db, ops: seq<Op>)
    requires Inv(db) && Guarded(db, ops)
    ensures Inv(Run(db, ops))
    ensures forall k :: Safe(db, k) || k in AcceptedIn(db, ops) ==> Safe(Run(db, ops), k)
    decreases ops
  {
    if ops != [] {
      StepKeeps(db, ops[0]);
      AcceptedKeysSurvive(Apply(db, ops[0]), ops[1..]);
    }
  }

  /** The calls an undisturbed service makes: no rollback inside a copy loop, and no archive of a
      row the main database has not committed. */
  predicate OrdinaryOp(db: Db, op: Op) {
    op.ArchiveOp? ==>
      && (forall i: nat :: i < |Selected(db.working, op.cutoff)| ==> op.fates(i) != RolledBack)
      && (forall r :: r in Selected(db.working, op.cutoff) ==> r in db.committed)
  }

  predicate Ordinary(db: Db, ops: seq<Op>)
    decreases ops
  {
    ops != [] ==> OrdinaryOp(db, ops[0]) && Ordinary(Apply(db, ops[0]), ops[1..])
  }

  lemma OrdinaryArchiveIsGuarded(db: Db, cutoff: string, dest: string, fates: nat -> RowFate, end: ArchiveEnd)
    requires Inv(db) && CrashSafe(db) && OrdinaryOp(db, ArchiveOp(cutoff, dest, fates, end))
    ensures ArchiveGuard(db, cutoff, dest, fates, end)
    ensures CrashSafe(ArchiveStep(db, cutoff, dest, fates, end))
  {
    var rows := Selected(db.working, cutoff);
    var base := ArchiveAt(db, dest);
    var copy := CopyFirst(base, rows, fates, |rows|).0;
    CopiedTable(base, rows, fates, |rows|);
    forall r | r in copy
      ensures r.id < db.committedNext
    {
      if r !in base {
        assert r in rows;
      }
    }
  }

  /** An ordinary run needs no further guard. */
  lemma {:induction false} OrdinaryRunsAreGuarded(db: Db, ops: seq<Op>)
    requires Inv(db) && CrashSafe(db) && Ordinary(db, ops)
    ensures Guarded(db, ops)
    decreases ops
  {
    if ops != [] {
      OrdinaryOpKeeps(db, ops[0]);
      hide Inv, CrashSafe, Apply, Guard, OrdinaryOp;
      OrdinaryRunsAreGuarded(Apply(db, ops[0]), ops[1..]);
    }
  }

  lemma OrdinaryOpKeeps(db: Db, op: Op)
    requires Inv(db) && CrashSafe(db) && OrdinaryOp(db, op)
    ensures Guard(db, op) && Inv(Apply(db, op)) && CrashSafe(Apply(db, op))
  {
    match op
    case ArchiveOp(cutoff, dest, fates, end) =>
      OrdinaryArchiveIsGuarded(db, cutoff, dest, fates, end);
      StepKeeps(db, op);
    case InsertOp(rec, script) =>
      InsertAdvances(db, ExtractKey(rec), ExtractFields(rec), script, 0);
      StepKeeps(db, op);
    case RestartOp => StepKeeps(db, op);
  }

  /** A store that starts empty and only ever archives committed rows, with no rollback inside
      the copy loop, never loses a key it accepted. */
  lemma FreshStoreLosesNothing(ops: seq<Op>)
    requires Ordinary(EMPTY, ops)
    ensures forall k :: k in AcceptedIn(EMPTY, ops) ==> Visible(Run(EMPTY, ops), k)
  {
    OrdinaryRunsAreGuarded(EMPTY, ops);
    AcceptedKeysSurvive(EMPTY, ops);
  }

  lemma {:induction false} InsertAdvances(db: Db, key: Key, body: Fields, script: nat -> Attempt, attempt: nat)
    requires db.committedNext <= db.workingNext
    ensures var after := InsertFrom(db, key, body, script, attempt).0;
            after.archives == db.archives && after.committedNext >= db.committedNext
    decreases MAX_ATTEMPTS - attempt
  {
    hide InsertOrIgnore;
    if attempt < MAX_ATTEMPTS && script(attempt).CommitLocked? {
      InsertAdvances(Execute(db, key, body, script(attempt).skip), key, body, script, attempt + 1);
    } else if attempt < MAX_ATTEMPTS && script(attempt).ExecuteLocked? {
      InsertAdvances(db, key, body, script, attempt + 1);
    }
  }

  // -------------------------------------------------------------------------
  // Both guards are needed
  // -------------------------------------------------------------------------

  lemma CommittedTableIsSafe(t: Table, next: nat, k: Key)
    requires WellFormed(t) && BelowNext(t, next) && HasKey(t, k)
    ensures Inv(Db(t, next, t, next, map[])) && Safe(Db(t, next, t, next, map[]), k)
  {
    var db := Db(t, next, t, next, map[]);
    assert forall r :: Holds(db, r) ==> r in t;
  }

  lemma FinishedArchiveLosesTheRow(db: Db, cutoff: string, dest: string, fates: nat -> RowFate, i: nat, j: nat)
    requires Inv(db)
    requires i < j < |Selected(db.working, cutoff)|
    requires fates(i) == Copied && fates(j) == RolledBack
    requires !InArchives(db, Selected(db.working, cutoff)[i].key)
    ensures !Visible(ArchiveStep(db, cutoff, dest, fates, Finished), Selected(db.working, cutoff)[i].key)
  {
    var rows := Selected(db.working, cutoff);
    LossyRowIsGone(db, cutoff, dest, fates, i, j);
    CopiedTable(ArchiveAt(db, dest), rows, fates, |rows|);
    hide Inv, CopyFirst, Selected, Without, HasKey;
    assert rows[i].id in CopyFirst(ArchiveAt(db, dest), rows, fates, |rows|).1;
  }

  /** Two committed rows; the second archive insert fails and takes the transaction with it.
      The first row is still counted as archived and is deleted: its key is gone. */
  lemma RollbackLosesAnAcceptedKey(a: Row, b: Row, cutoff: string, dest: string, fates: nat -> RowFate)
    requires a.id < b.id && a.key != b.key
    requires Before(a.key.timestamp, cutoff) && Before(b.key.timestamp, cutoff)
    requires fates(0) == Copied && fates(1) == RolledBack
    ensures var db := Db([a, b], b.id + 1, [a, b], b.id + 1, map[]);
            && Inv(db) && Safe(db, a.key)
            && !Visible(ArchiveStep(db, cutoff, dest, fates, Finished), a.key)
  {
    hide Inv, Safe, Visible, ArchiveStep, Selected, Before, CopyFirst;
    var t := [a, b];
    var db := Db(t, b.id + 1, t, b.id + 1, map[]);
    assert t[0] == a && t[1] == b;
    SelectedAll(t, cutoff);
    CommittedTableIsSafe(t, b.id + 1, a.key);
    FinishedArchiveLosesTheRow(db, cutoff, dest, fates, 0, 1);
  }

  lemma {:induction false} SelectedAll(t: Table, cutoff: string)
    requires forall r :: r in t ==> Before(r.key.timestamp, cutoff)
    ensures Selected(t, cutoff) == t
  {
    if t != [] {
      SelectedAll(t[..|t| - 1], cutoff);
    }
  }

  lemma {:induction false} ClashingRowStaysOut(base: Table, rows: Table, fates: nat -> RowFate, n: nat, i: nat, r: Row)
    requires n <= |rows| && i < |rows| && WellFormed(rows)
    requires r in base && r.id == rows[i].id && rows[i] !in base
    ensures r in CopyFirst(base, rows, fates, n).0 && rows[i] !in CopyFirst(base, rows, fates, n).0
  {
    if n > 0 {
      ClashingRowStaysOut(base, rows, fates, n - 1, i, r);
      assert n - 1 != i ==> rows[n - 1] != rows[i];
    }
  }

  /** A row whose id an archive already gave to another key is taken for archived there: a finished
      call deletes it, and its key is nowhere. */
  lemma TakenIdLosesTheRow(db: Db, cutoff: string, dest: string, fates: nat -> RowFate, b: Row, r: Row)
    requires WellFormed(db.working) && b in db.working && Before(b.key.timestamp, cutoff)
    requires dest in db.archives && r in db.archives[dest] && r.id == b.id && !InArchives(db, b.key)
    requires forall i: nat :: fates(i) == Copied
    ensures !Visible(ArchiveStep(db, cutoff, dest, fates, Finished), b.key)
  {
    hide CopyFirst, Selected, Without, Clashes, InsertOrIgnore, Before, WellFormed, HasKey;
    var rows := Selected(db.working, cutoff);
    var base := db.archives[dest];
    var (copy, ids) := CopyFirst(base, rows, fates, |rows|);
    SelectedMembers(db.working, cutoff);
    var i: nat :| i < |rows| && rows[i] == b;
    assert !HasKey(base, b.key);
    KeyStaysOutOfCopy(base, rows, fates, i, r);
    CopiedIds(base, rows, fates, |rows|, b.id);
    assert i < |rows| && fates(i) == Copied && rows[i].id == b.id;
    OnlyRowOfItsKeyGoes(db, dest, copy, ids, b);
    DeletedWhenFinished(db, cutoff, dest, fates, b.id, b.key);
  }

  lemma KeyStaysOutOfCopy(base: Table, rows: Table, fates: nat -> RowFate, i: nat, r: Row)
    requires i < |rows| && WellFormed(rows) && r in base && r.id == rows[i].id && !HasKey(base, rows[i].key)
    ensures !HasKey(CopyFirst(base, rows, fates, |rows|).0, rows[i].key)
  {
    hide CopyFirst, Clashes, Kept;
    assert rows[i] !in base;
    ClashingRowStaysOut(base, rows, fates, |rows|, i, r);
    CopiedRows(base, rows, fates, |rows|);
  }

  /** A finished call that archives anything ends in the state of the delete step, committed. */
  lemma DeletedWhenFinished(db: Db, cutoff: string, dest: string, fates: nat -> RowFate, id: nat, k: Key)
    requires id in ArchivedIds(db, cutoff, dest, fates)
    ensures var rows := Selected(db.working, cutoff);
            var (copy, ids) := CopyFirst(ArchiveAt(db, dest), rows, fates, |rows|);
            var deleted := db.(archives := db.archives[dest := copy], working := Without(db.working, ids));
            Visible(ArchiveStep(db, cutoff, dest, fates, Finished), k) <==> Visible(deleted, k)
  {
    hide Selected, Without, HasKey;
  }

  /** The promise of an ordinary run from `db` on: no key accepted on the way is lost. */
  ghost predicate OrdinaryRunsKeep(db: Db) {
    forall ops, k :: Ordinary(db, ops) && k in AcceptedIn(db, ops) ==> Visible(Run(db, ops), k)
  }

  /** After a crash, ordinary runs lose no accepted key if and only if no archive holds an id that
      only the lost transaction had issued. Otherwise that id is issued again, and the next row
      that gets it is deleted without being archived. */
  lemma CrashIsHarmlessIff(db: Db)
    requires Inv(db)
    ensures OrdinaryRunsKeep(Crash(db)) <==> CrashSafe(db)
  {
    var crashed := Crash(db);
    if CrashSafe(db) {
      CrashKeepsInvIff(db);
      assert CrashSafe(crashed);
      hide Inv, CrashSafe, Safe;
      forall ops, k | Ordinary(crashed, ops) && k in AcceptedIn(crashed, ops)
        ensures Visible(Run(crashed, ops), k)
      {
        OrdinaryRunsAreGuarded(crashed, ops);
        AcceptedKeysSurvive(crashed, ops);
        SafeIsVisible(Run(crashed, ops), k);
      }
    } else {
      var d :| d in db.archives && !BelowNext(db.archives[d], db.committedNext);
      var r :| r in db.archives[d] && r.id >= db.committedNext;
      ReissuedIdLosesAKey(crashed, d, r);
    }
  }

  lemma SafeIsVisible(db: Db, k: Key)
    requires Safe(db, k)
    ensures Visible(db, k)
  {
  }

  lemma ReissuedIdLosesAKey(db: Db, d: string, r: Row)
    requires db.working == db.committed && db.workingNext == db.committedNext
    requires WellFormed(db.committed) && BelowNext(db.committed, db.committedNext)
    requires d in db.archives && r in db.archives[d] && r.id >= db.committedNext
    ensures !OrdinaryRunsKeep(db)
  {
    hide WellFormed, BelowNext, FreshIn, Ordinary, AcceptedIn, Run, Apply, AcceptedBy, OrdinaryOp, Visible;
    var name := FreshName(db);
    var fates: nat -> RowFate := _ => Copied;
    var one := InsertOp(Record(map[Ip := Text(name)], map[]), _ => Applied(r.id - db.committedNext));
    var two := ArchiveOp("~", d, fates, Finished);
    var k := Key(name, "");
    var next := InsertsUnderTheId(db, name, one, r.id);
    ArchiveOfReissuedId(next, d, r, k, two);
    TwoStepRun(db, one, two, next);
    var ops := [one, two];
    assert Ordinary(db, ops) && k in AcceptedIn(db, ops) && !Visible(Run(db, ops), k);
  }

  lemma InsertsUnderTheId(db: Db, name: string, op: Op, id: nat) returns (next: Db)
    requires db.working == db.committed && db.workingNext == db.committedNext <= id && FreshIn(db, name)
    requires WellFormed(db.committed) && BelowNext(db.committed, db.committedNext)
    requires op.InsertOp? && op.rec == Record(map[Ip := Text(name)], map[])
    requires op.script(0) == Applied(id - db.committedNext)
    ensures next == Apply(db, op) && Key(name, "") in AcceptedBy(db, op)
    ensures next.archives == db.archives && next.committed == next.working && WellFormed(next.working)
    ensures exists b :: b in next.working && b.id == id && b.key == Key(name, "")
    ensures !InArchives(next, Key(name, ""))
  {
    hide ExtractKey, ExtractFields, Extractable, InsertFrom, HasKey;
    PlainRecordKey(name);
    var k, body := Key(name, ""), ExtractFields(op.rec);
    NewKeyIsInserted(db, k, body, op.script, id - db.committedNext);
    next := Apply(db, op);
    assert next.working[|db.committed|] == Row(id, k, body);
    assert next.archives == db.archives;
  }

  lemma ArchiveOfReissuedId(db: Db, d: string, r: Row, k: Key, op: Op)
    requires WellFormed(db.working) && db.committed == db.working && k.timestamp == ""
    requires d in db.archives && r in db.archives[d] && !InArchives(db, k)
    requires exists b :: b in db.working && b.id == r.id && b.key == k
    requires op.ArchiveOp? && op.cutoff == "~" && op.dest == d && op.end == Finished
    requires forall i: nat :: op.fates(i) == Copied
    ensures OrdinaryOp(db, op) && !Visible(Apply(db, op), k)
  {
    hide ArchiveStep, Selected, WellFormed, InArchives, HasKey, Visible;
    var b :| b in db.working && b.id == r.id && b.key == k;
    SelectedMembers(db.working, "~");
    assert Before(b.key.timestamp, "~");
    TakenIdLosesTheRow(db, "~", d, op.fates, b, r);
  }

  lemma TwoStepRun(db: Db, one: Op, two: Op, next: Db)
    requires Apply(db, one) == next && one.InsertOp? && OrdinaryOp(next, two)
    ensures Ordinary(db, [one, two]) && AcceptedBy(db, one) <= AcceptedIn(db, [one, two])
    ensures Run(db, [one, two]) == Apply(next, two)
  {
    hide Apply, AcceptedBy;
    var ops := [one, two];
    assert ops[1..] == [two] && [two][1..] == [];
    assert OrdinaryOp(db, one);
    assert Ordinary(next, [two]);
    assert Run(next, [two]) == Apply(next, two);
  }

  lemma NewKeyIsInserted(db: Db, k: Key, body: Fields, script: nat -> Attempt, skip: nat)
    requires db.working == db.committed && db.workingNext == db.committedNext
    requires BelowNext(db.committed, db.committedNext) && !HasKey(db.committed, k)
    requires script(0) == Applied(skip)
    ensures var b := Row(db.committedNext + skip, k, body);
            var table := db.committed + [b];
            InsertFrom(db, k, body, script, 0) == (Db(table, b.id + 1, table, b.id + 1, db.archives), Accepted)
    ensures WellFormed(db.committed) ==> WellFormed(db.committed + [Row(db.committedNext + skip, k, body)])
  {
  }

  predicate FreshIn(db: Db, name: string) {
    && !HasKey(db.committed, Key(name, ""))
    && !InArchives(db, Key(name, ""))
    && name != "" && '\0' !in name
  }

  lemma FreshName(db: Db) returns (name: string)
    ensures FreshIn(db, name)
  {
    var used := (set r | r in db.committed :: r.key.botIp)
              + (set d, r | d in db.archives && r in db.archives[d] :: r.key.botIp);
    var n := LongerThanAll(used);
    name := seq(n + 1, _ => 'a');
    assert forall r :: r in db.committed ==> r.key.botIp in used;
    assert forall d, r :: d in db.archives && r in db.archives[d] ==> r.key.botIp in used;
  }

  lemma {:induction false} LongerThanAll(texts: set<string>) returns (n: nat)
    ensures forall t :: t in texts ==> |t| <= n
  {
    if texts == {} {
      n := 0;
    } else {
      var t :| t in texts;
      n := LongerThanAll(texts - {t});
      n := if |t| > n then |t| else n;
    }
  }

  lemma PlainRecordKey(name: string)
    requires name != "" && '\0' !in name
    ensures var rec := Record(map[Ip := Text(name)], map[]);
            ExtractKey(rec) == Key(name, "") && Extractable(rec)
  {
    var rec := Record(map[Ip := Text(name)], map[]);
    EscapeIsIdentityIffNulFree(name);
    assert EscapeNul("") == "";
    assert Get(rec, Ip) == Text(name) && Get(rec, Timestamp) == Null;
    assert FirstTruthy([Text(name)]) == name;
    assert [Null][1..] == [] && FirstTruthy([Null]) == FirstTruthy([]);
  }

  lemma OneRowArchived(db: Db, base: Table, row: Row, cutoff: string, dest: string, fates: nat -> RowFate)
    requires db.working == [row] && Before(row.key.timestamp, cutoff) && fates(0) == Copied
    requires ArchiveAt(db, dest) == base
    ensures ArchiveStep(db, cutoff, dest, fates, CrashBeforeMainCommit) ==
            Crash(db.(archives := db.archives[dest := InsertOrIgnore(base, row)]))
    ensures ArchiveStep(db, cutoff, dest, fates, Finished) ==
            Commit(db.(archives := db.archives[dest := InsertOrIgnore(base, row)], working := []))
  {
    SelectedAll([row], cutoff);
    var ids := CopyFirst(base, [row], fates, 1).1;
    assert CopyFirst(base, [row], fates, 1).0 == InsertOrIgnore(base, row);
    assert CopyFirst(base, [row], fates, 0).1 == [];
    assert ids == [] + [row.id];
    assert [row][..0] == [];
    assert row.id in ids;
    assert Without([row], ids) == [];
  }

  /** A row whose commit failed is archived from the open transaction, the process dies, and its
      id is issued again: the next row of that id is taken for archived and deleted. */
  lemma ReusedIdLosesAnAcceptedKey(
    k: Key, l: Key, cutoff: string, dest: string,
    script: nat -> Attempt, again: nat -> Attempt, fates: nat -> RowFate)
    requires k != l && Before(k.timestamp, cutoff) && Before(l.timestamp, cutoff)
    requires script(0) == CommitFailed(0) && again(0) == Applied(0) && fates(0) == Copied
    ensures var one := InsertFrom(EMPTY, k, map[], script, 0).0;
            var two := ArchiveStep(one, cutoff, dest, fates, CrashBeforeMainCommit);
            var (three, outcome) := InsertFrom(two, l, map[], again, 0);
            && outcome == Accepted && Safe(three, l)
            && !Visible(ArchiveStep(three, cutoff, dest, fates, Finished), l)
  {
    var a, b := Row(0, k, map[]), Row(0, l, map[]);
    var one := Db([], 0, [a], 1, map[]);
    var two := Db([], 0, [], 0, map[dest := [a]]);
    var three := Db([b], 1, [b], 1, map[dest := [a]]);
    assert InsertFrom(EMPTY, k, map[], script, 0).0 == one by { assert [] + [a] == [a]; }
    OneRowArchived(one, [], a, cutoff, dest, fates);
    assert InsertOrIgnore([], a) == [a] by { assert [] + [a] == [a]; }
    assert ArchiveStep(one, cutoff, dest, fates, CrashBeforeMainCommit) == two;
    assert InsertFrom(two, l, map[], again, 0) == (three, Accepted) by { assert [] + [b] == [b]; }
    assert b in three.working;
    OneRowArchived(three, [a], b, cutoff, dest, fates);
    assert a in [a] && Clashes([a], b);
  }
}

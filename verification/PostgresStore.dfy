/** The PostgreSQL insert path (manyfaced/db/storage.py, class PostgreSQLStorage): one
    reconnect, one retry and a dump file, under arbitrary driver failures. */
module PostgresStore {
  import opened Records

  datatype Row = Row(key: Key, body: Fields)

  type Table = seq<Row>

  /** How a commit ends: it may fail although the server applied it. */
  datatype CommitResult = Committed | ErrorButApplied | ErrorAndLost

  /** One execute-and-commit. */
  datatype Statement = ExecuteError | Executed(commit: CommitResult)

  /** What the driver does during one insert call. */
  datatype Driver = Driver(
    connects: bool, first: Statement,
    reconnects: bool, second: Statement,
    dumpWorks: bool)

  datatype Pg = Pg(connected: bool, table: Table, dump: seq<Record>)

  predicate HasKey(t: Table, k: Key) {
    exists r :: r in t && r.key == k
  }

  /** INSERT ... ON CONFLICT(bot_ip, timestamp) DO NOTHING. */
  function InsertDoNothing(t: Table, row: Row): Table {
    if HasKey(t, row.key) then t else t + [row]
  }

  predicate OneRowPerKey(t: Table) {
    forall i, j :: 0 <= i < j < |t| ==> t[i].key != t[j].key
  }

  predicate Applied(st: Statement) {
    st.Executed? && st.commit != ErrorAndLost
  }

  function Effect(t: Table, row: Row, st: Statement): Table {
    if Applied(st) then InsertDoNothing(t, row) else t
  }

  predicate Succeeds(st: Statement) {
    st == Executed(Committed)
  }

  function Dumped(pg: Pg, rec: Record, works: bool): Pg {
    if works then pg.(dump := pg.dump + [rec]) else pg
  }

  /** The whole call. A record whose fields do not convert raises after the first connect. */
  function InsertStep(pg: Pg, rec: Record, d: Driver): Pg {
    if !pg.connected && !d.connects then Dumped(pg, rec, d.dumpWorks)
    else if !Extractable(rec) then pg.(connected := true)
    else
      var row := Row(ExtractKey(rec), ExtractFields(rec));
      var once := pg.(connected := true, table := Effect(pg.table, row, d.first));
      if Succeeds(d.first) then once
      else if !d.reconnects then Dumped(once.(connected := false), rec, d.dumpWorks)
      else
        var twice := once.(table := Effect(once.table, row, d.second));
        if Succeeds(d.second) then twice else Dumped(twice, rec, d.dumpWorks)
  }

  /** The field conversion raises after the connection is up. */
  predicate Raises(pg: Pg, rec: Record, d: Driver) {
    (pg.connected || d.connects) && !Extractable(rec)
  }

  class PostgresStorage {
    var connected: bool
    var table: Table
    var dump: seq<Record>
    ghost var executes: nat

    ghost function State(): Pg
      reads this
    {
      Pg(connected, table, dump)
    }

    constructor ()
      ensures State() == Pg(false, [], []) && executes == 0
    {
      connected, table, dump, executes := false, [], [], 0;
    }

    /** Called with no connection: opens one or leaves none behind. */
    method EnsureConnected(connects: bool) returns (ok: bool)
      requires !connected
      modifies this
      ensures ok == connects && State() == old(State()).(connected := connects) && executes == old(executes)
    {
      connected := connects;
      ok := connects;
    }

    method ExecuteAndCommit(row: Row, st: Statement) returns (ok: bool)
      modifies this
      ensures ok == Succeeds(st) && executes == old(executes) + 1
      ensures State() == old(State()).(table := Effect(old(table), row, st))
    {
      executes := executes + 1;
      match st {
        case ExecuteError => ok := false;
        case Executed(result) =>
          if result != ErrorAndLost {
            table := InsertDoNothing(table, row);
          }
          ok := result == Committed;
      }
    }

    method DumpInsertFailure(rec: Record, works: bool)
      modifies this
      ensures State() == Dumped(old(State()), rec, works) && executes == old(executes)
    {
      if works {
        dump := dump + [rec];
      }
    }

    /** `raised` is the exception of a field that does not convert; it leaves the method. */
    method Insert(rec: Record, d: Driver) returns (raised: bool)
      modifies this
      ensures State() == InsertStep(old(State()), rec, d)
      ensures raised == Raises(old(State()), rec, d)
      ensures executes <= old(executes) + 2
    {
      hide Extractable, ExtractKey, ExtractFields, HasKey;
      raised := false;
      if !connected {
        var ok := EnsureConnected(d.connects);
        if !ok {
          DumpInsertFailure(rec, d.dumpWorks);
          return;
        }
      }
      if !Extractable(rec) {
        return true;
      }
      var row := Row(ExtractKey(rec), ExtractFields(rec));
      var stored := ExecuteAndCommit(row, d.first);
      if !stored {
        connected := false;
        var ok := EnsureConnected(d.reconnects);
        if !ok {
          DumpInsertFailure(rec, d.dumpWorks);
          return;
        }
        stored := ExecuteAndCommit(row, d.second);
        if !stored {
          DumpInsertFailure(rec, d.dumpWorks);
        }
      }
    }
  }

  // -------------------------------------------------------------------------
  // What the insert path promises
  // -------------------------------------------------------------------------

  lemma DoNothingKeepsKeysUnique(t: Table, row: Row)
    requires OneRowPerKey(t)
    ensures OneRowPerKey(InsertDoNothing(t, row)) && t <= InsertDoNothing(t, row)
    ensures HasKey(InsertDoNothing(t, row), row.key)
    ensures forall k :: HasKey(InsertDoNothing(t, row), k) <==> HasKey(t, k) || k == row.key
  {
    var after := InsertDoNothing(t, row);
    if !HasKey(t, row.key) {
      assert after[|t|] == row;
      forall i | 0 <= i < |t|
        ensures t[i].key != row.key
      {
        assert t[i] in t;
      }
      forall k | HasKey(t, k)
        ensures HasKey(after, k)
      {
        var r :| r in t && r.key == k;
        assert r in after;
      }
    }
  }

  /** The server applied one of the statements this call issued. */
  predicate Applies(pg: Pg, rec: Record, d: Driver) {
    && (pg.connected || d.connects)
    && Extractable(rec)
    && (Applied(d.first) || (!Succeeds(d.first) && d.reconnects && Applied(d.second)))
  }

  predicate CommitsCleanly(pg: Pg, rec: Record, d: Driver) {
    && (pg.connected || d.connects)
    && Extractable(rec)
    && (Succeeds(d.first) || (d.reconnects && Succeeds(d.second)))
  }

  lemma EffectsAddOneRowAtMost(t: Table, row: Row, first: Statement, second: Statement)
    requires OneRowPerKey(t)
    ensures var after := Effect(Effect(t, row, first), row, second);
            && OneRowPerKey(after) && t <= after && |after| <= |t| + 1
            && (forall k :: HasKey(after, k) <==>
                            HasKey(t, k) || (k == row.key && (Applied(first) || Applied(second))))
  {
    DoNothingKeepsKeysUnique(t, row);
    if Applied(first) && Applied(second) {
      assert HasKey(InsertDoNothing(t, row), row.key);
      assert Effect(Effect(t, row, first), row, second) == InsertDoNothing(t, row);
    }
  }

  /** One call, exactly: the key is in the table iff it was there or a statement was applied; the
      record is dumped iff nothing raised, nothing committed cleanly and the dump file works; and
      a retry after a commit that was applied but reported an error adds no second row. */
  lemma InsertOutcome(pg: Pg, rec: Record, d: Driver)
    requires OneRowPerKey(pg.table)
    ensures var after := InsertStep(pg, rec, d);
            && OneRowPerKey(after.table) && pg.table <= after.table && |after.table| <= |pg.table| + 1
            && (forall k :: HasKey(after.table, k) <==>
                            HasKey(pg.table, k) || (k == ExtractKey(rec) && Applies(pg, rec, d)))
            && after.dump == if d.dumpWorks && !Raises(pg, rec, d) && !CommitsCleanly(pg, rec, d)
                             then pg.dump + [rec] else pg.dump
  {
    var row := Row(ExtractKey(rec), ExtractFields(rec));
    var second := if Succeeds(d.first) || !d.reconnects then ExecuteError else d.second;
    EffectsAddOneRowAtMost(pg.table, row, d.first, second);
    var after := InsertStep(pg, rec, d);
    if (pg.connected || d.connects) && Extractable(rec) {
      assert after.table == Effect(Effect(pg.table, row, d.first), row, second);
    } else {
      assert after.table == pg.table;
    }
  }

  datatype Call = Call(rec: Record, driver: Driver)

  function Run(pg: Pg, calls: seq<Call>): Pg
    decreases calls
  {
    if calls == [] then pg
    else Run(InsertStep(pg, calls[0].rec, calls[0].driver), calls[1..])
  }

  lemma {:induction false} RunAppend(pg: Pg, calls: seq<Call>, c: Call)
    ensures Run(pg, calls + [c]) == InsertStep(Run(pg, calls), c.rec, c.driver)
    decreases calls
  {
    hide InsertStep;
    if calls == [] {
      assert [] + [c] == [c] && [c][1..] == [];
    } else {
      assert (calls + [c])[1..] == calls[1..] + [c];
      RunAppend(InsertStep(pg, calls[0].rec, calls[0].driver), calls[1..], c);
    }
  }

  /** No key enters the table but those of the records inserted. */
  lemma {:induction false} RunKeysWithin(pg: Pg, calls: seq<Call>, k: Key)
    requires OneRowPerKey(pg.table) && HasKey(Run(pg, calls).table, k)
    ensures HasKey(pg.table, k) || exists c :: c in calls && ExtractKey(c.rec) == k
    decreases calls
  {
    hide InsertStep, ExtractKey, HasKey;
    if calls != [] {
      var c := calls[0];
      InsertOutcome(pg, c.rec, c.driver);
      RunKeysWithin(InsertStep(pg, c.rec, c.driver), calls[1..], k);
    }
  }

  predicate Kept(pg: Pg, rec: Record) {
    HasKey(pg.table, ExtractKey(rec)) || rec in pg.dump
  }

  predicate AllKept(pg: Pg, calls: seq<Call>) {
    forall c :: c in calls ==> Kept(pg, c.rec)
  }

  lemma {:induction false} RunGrows(pg: Pg, calls: seq<Call>)
    requires OneRowPerKey(pg.table)
    ensures var after := Run(pg, calls);
            OneRowPerKey(after.table) && pg.table <= after.table && pg.dump <= after.dump
    decreases calls
  {
    if calls != [] {
      var c := calls[0];
      InsertOutcome(pg, c.rec, c.driver);
      RunGrows(InsertStep(pg, c.rec, c.driver), calls[1..]);
    }
  }

  lemma KeptStays(pg: Pg, later: Pg, rec: Record)
    requires pg.table <= later.table && pg.dump <= later.dump && Kept(pg, rec)
    ensures Kept(later, rec)
  {
    if HasKey(pg.table, ExtractKey(rec)) {
      var r :| r in pg.table && r.key == ExtractKey(rec);
      assert r in later.table;
    } else {
      assert rec in later.dump;
    }
  }

  /** Every run: as long as the records convert and the dump file can be written, no capture is
      lost, and the table never holds two rows of one key. */
  lemma {:induction false} EveryCaptureIsKept(pg: Pg, calls: seq<Call>)
    requires OneRowPerKey(pg.table)
    requires forall c :: c in calls ==> Extractable(c.rec) && c.driver.dumpWorks
    ensures AllKept(Run(pg, calls), calls) && OneRowPerKey(Run(pg, calls).table)
    decreases calls
  {
    if calls != [] {
      var c := calls[0];
      var next := InsertStep(pg, c.rec, c.driver);
      InsertOutcome(pg, c.rec, c.driver);
      assert Kept(next, c.rec) by {
        if !Applies(pg, c.rec, c.driver) {
          assert next.dump[|pg.dump|] == c.rec;
        }
      }
      RunGrows(next, calls[1..]);
      KeptStays(next, Run(next, calls[1..]), c.rec);
      EveryCaptureIsKept(next, calls[1..]);
      assert calls == [c] + calls[1..];
    }
  }

  /** Exactly when one call loses a record that was not stored before: its fields do not convert,
      or nothing was applied and the dump file failed too. */
  lemma LostIff(pg: Pg, rec: Record, d: Driver)
    requires OneRowPerKey(pg.table) && !Kept(pg, rec)
    ensures !Kept(InsertStep(pg, rec, d), rec) <==>
            Raises(pg, rec, d) || (!d.dumpWorks && !Applies(pg, rec, d))
  {
    InsertOutcome(pg, rec, d);
    if d.dumpWorks && !Raises(pg, rec, d) && !CommitsCleanly(pg, rec, d) {
      assert (pg.dump + [rec])[|pg.dump|] == rec;
    }
  }
}

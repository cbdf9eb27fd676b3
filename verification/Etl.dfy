/** The one-time copy from SQLite into PostgreSQL (scripts/migrate_sqlite_to_postgres.py): keyset
    pages over the id, or offset pages over the rowid when there is no id column. */
module Etl {
  import opened Wrappers
  import opened Records
  import opened PostgresStore

  /** `dict(row)` without its id: the keys are column names of the table. */
  type Columns = m: map<Name, Value> | forall c :: c in m ==> IsColumn(c) witness map[]

  /** A source row; sources are kept in ascending id order, or in rowid order without ids. */
  datatype SourceRow = SourceRow(id: int, columns: Columns)

  type Source = seq<SourceRow>

  predicate Ascending(src: Source) {
    forall i, j :: 0 <= i < j < |src| ==> src[i].id < src[j].id
  }

  /** The row dict goes to the insert as it is. */
  function AsRecord(row: SourceRow): Record {
    Record(row.columns, map[])
  }

  /** A driver that never fails. */
  const WORKING := Driver(true, Executed(Committed), true, Executed(Committed), true)

  function TargetRow(row: SourceRow): Row {
    Row(ExtractKey(AsRecord(row)), ExtractFields(AsRecord(row)))
  }

  /** One insert per row; `drivers` says what the driver does during each. */
  function Calls(rows: Source, drivers: nat -> Driver): seq<Call> {
    seq(|rows|, i requires 0 <= i < |rows| => Call(AsRecord(rows[i]), drivers(i)))
  }

  /** What clean inserts of the rows make of a table: first come, first kept. */
  function CopyAll(t: Table, rows: Source): Table
    decreases rows
  {
    if rows == [] then t else CopyAll(InsertDoNothing(t, TargetRow(rows[0])), rows[1..])
  }

  /** Rows with id > last, in id order. */
  function After(src: Source, last: int): Source {
    if src == [] then [] else (if src[0].id > last then [src[0]] else []) + After(src[1..], last)
  }

  /** LIMIT n: a negative limit is none. */
  function Limited(rows: Source, n: int): Source {
    if 0 <= n < |rows| then rows[..n] else rows
  }

  function Offset(src: Source, n: nat): Source {
    if n <= |src| then src[n..] else []
  }

  /** The sequence the run works through. */
  function Visible(src: Source, hasId: bool): Source {
    if hasId then After(src, 0) else src
  }

  /** Rows copied when `n` are visible and `done` are already: whole batches until the limit. */
  function Reach(n: nat, batch: int, limit: Option<int>, done: nat): (r: nat)
    requires done <= n
    ensures done <= r <= n
    decreases n - done
  {
    if done == n || batch == 0 then done
    else
      var next := if 0 < batch < n - done then done + batch else n;
      if limit.Some? && next >= limit.value then next else Reach(n, batch, limit, next)
  }

  /** The hive_id is NULL, an integer or an integer's text. */
  predicate HasIntegralHive(row: SourceRow) {
    ConvertsToInt(Get(AsRecord(row), HiveId))
  }

  /** An integral hive_id is all a row needs to convert: a row has no column the detected id is
      read from. */
  lemma ConvertsIff(row: SourceRow)
    ensures Extractable(AsRecord(row)) <==> HasIntegralHive(row)
  {
    assert !IsColumn(IsDetected) && !IsColumn(IsDetectedAlias);
    assert DetectedOf(AsRecord(row)) == Null;
  }

  /** Every row converts: none raises. */
  predicate AllConvert(src: Source) {
    forall r :: r in src ==> Extractable(AsRecord(r))
  }

  ghost predicate AllConnect(drivers: nat -> Driver) {
    forall i :: drivers(i).connects
  }

  predicate IntegralUpTo(src: Source, hasId: bool, n: nat) {
    n <= |Visible(src, hasId)| && forall i :: 0 <= i < n ==> HasIntegralHive(Visible(src, hasId)[i])
  }

  /** What the next SELECT sees before its LIMIT. */
  function NextPage(src: Source, hasId: bool, lastId: int, scanned: nat): Source {
    if hasId then After(src, lastId) else Offset(src, scanned)
  }

  /** The target after the first `n` visible rows. */
  function Inserted(src: Source, hasId: bool, start: Pg, drivers: nat -> Driver, n: nat): Pg
    requires n <= |Visible(src, hasId)|
  {
    Run(start, Calls(Visible(src, hasId)[..n], drivers))
  }

  /** The first `scanned` visible rows are inserted, and the next page starts behind them. */
  predicate Progress(src: Source, hasId: bool, start: Pg, pg: Pg, drivers: nat -> Driver, lastId: int, scanned: nat) {
    && scanned <= |Visible(src, hasId)|
    && NextPage(src, hasId, lastId, scanned) == Visible(src, hasId)[scanned..]
    && pg == Inserted(src, hasId, start, drivers, scanned)
  }

  /** The row at `scanned` does not convert: its insert raised. */
  predicate Stopped(src: Source, hasId: bool, start: Pg, pg: Pg, drivers: nat -> Driver, scanned: nat) {
    && scanned < |Visible(src, hasId)|
    && !HasIntegralHive(Visible(src, hasId)[scanned])
    && pg == Inserted(src, hasId, start, drivers, scanned + 1)
  }

  /** The copy loop. It inserts the visible rows in order, each once, and stops after the batch in
      which the limit is reached; a row that does not convert ends it with an exception. */
  method Migrate(src: Source, storage: PostgresStorage, hasId: bool, batch: int, limit: Option<int>,
                 drivers: nat -> Driver)
    returns (copied: nat, raised: bool)
    requires (hasId ==> Ascending(src)) && storage.connected
    modifies storage
    ensures copied <= |Visible(src, hasId)|
    ensures !raised ==> copied == Reach(|Visible(src, hasId)|, batch, limit, 0)
    ensures !raised ==> storage.State() == Inserted(src, hasId, old(storage.State()), drivers, copied)
    ensures raised ==>
              && copied < Reach(|Visible(src, hasId)|, batch, limit, 0)
              && Stopped(src, hasId, old(storage.State()), storage.State(), drivers, copied)
    ensures (forall r :: r in src ==> HasIntegralHive(r)) ==> !raised
    ensures AllConnect(drivers) ==>
              (raised <==> exists i :: 0 <= i < Reach(|Visible(src, hasId)|, batch, limit, 0)
                                       && !HasIntegralHive(Visible(src, hasId)[i]))
  {
    hide Ascending, Reach, HasIntegralHive, AllConnect;
    var lastId, scanned, more := 0, 0, true;
    raised := false;
    ghost var start := storage.State();
    ghost var n := |Visible(src, hasId)|;
    assert Calls(Visible(src, hasId)[..0], drivers) == [];
    assert NextPage(src, hasId, 0, 0) == Visible(src, hasId)[0..];
    VisibleMembers(src, hasId);
    hide NextPage, Visible, Inserted, Run;
    assert Progress(src, hasId, start, storage.State(), drivers, lastId, scanned);
    while more
      invariant scanned <= n && (more ==> !raised)
      invariant !raised ==> Progress(src, hasId, start, storage.State(), drivers, lastId, scanned)
      invariant raised ==>
                  scanned < Reach(n, batch, limit, 0) && Stopped(src, hasId, start, storage.State(), drivers, scanned)
      invariant !raised ==> Reach(n, batch, limit, 0) == if more then Reach(n, batch, limit, scanned) else scanned
      invariant AllConnect(drivers) ==> IntegralUpTo(src, hasId, scanned)
      decreases more, n - scanned
    {
      lastId, scanned, more, raised :=
        Turn(src, storage, hasId, batch, limit, drivers, lastId, scanned, start);
    }
    copied := scanned;
  }

  /** One turn of the loop: a page, its inserts, and the ways to stop. `scanned` is also the number
      of rows copied so far. */
  method Turn(src: Source, storage: PostgresStorage, hasId: bool, batch: int, limit: Option<int>,
              drivers: nat -> Driver, last: int, before: nat, ghost start: Pg)
    returns (lastId: int, scanned: nat, more: bool, raised: bool)
    requires hasId ==> Ascending(src)
    requires Progress(src, hasId, start, storage.State(), drivers, last, before)
    requires AllConnect(drivers) ==> IntegralUpTo(src, hasId, before)
    modifies storage
    ensures before <= scanned <= |Visible(src, hasId)| && (more ==> before < scanned && !raised)
    ensures !raised ==> Progress(src, hasId, start, storage.State(), drivers, lastId, scanned)
    ensures !raised ==> Reach(|Visible(src, hasId)|, batch, limit, before) ==
                        if more then Reach(|Visible(src, hasId)|, batch, limit, scanned) else scanned
    ensures raised ==>
              && scanned < Reach(|Visible(src, hasId)|, batch, limit, before)
              && Stopped(src, hasId, start, storage.State(), drivers, scanned)
    ensures AllConnect(drivers) ==> IntegralUpTo(src, hasId, scanned)
  {
    hide Ascending, Visible, Progress, Stopped, Limited, After, Offset, IntegralUpTo, AllConnect;
    raised := false;
    var rows := if hasId then Limited(After(src, last), batch) else Limited(Offset(src, before), batch);
    PageIsNext(src, hasId, start, storage.State(), drivers, last, before, rows, batch);
    var n := |Visible(src, hasId)|;
    if rows == [] {
      ReachStops(n, batch, limit);
      return last, before, false, false;
    }
    ReachStep(n, batch, limit, before, |rows|);
    hide Reach;
    lastId, scanned, raised := InsertRows(src, storage, hasId, rows, drivers, last, before, start);
    more := !raised && !(limit.Some? && scanned >= limit.value) && !(!hasId && |rows| < batch);
  }

  method InsertRows(src: Source, storage: PostgresStorage, hasId: bool, rows: Source, drivers: nat -> Driver,
                    last: int, before: nat, ghost start: Pg)
    returns (lastId: int, scanned: nat, raised: bool)
    requires hasId ==> Ascending(src)
    requires Progress(src, hasId, start, storage.State(), drivers, last, before)
    requires before + |rows| <= |Visible(src, hasId)| && rows == Visible(src, hasId)[before..before + |rows|]
    requires AllConnect(drivers) ==> IntegralUpTo(src, hasId, before)
    modifies storage
    ensures !raised ==> scanned == before + |rows|
    ensures !raised ==> Progress(src, hasId, start, storage.State(), drivers, lastId, scanned)
    ensures raised ==> before <= scanned < before + |rows|
    ensures raised ==> Stopped(src, hasId, start, storage.State(), drivers, scanned)
    ensures AllConnect(drivers) ==> IntegralUpTo(src, hasId, scanned)
  {
    hide Ascending, Visible, Progress, Stopped, InsertStep, AsRecord, Raises, IntegralUpTo, AllConnect;
    lastId, scanned, raised := last, before, false;
    for i := 0 to |rows|
      invariant scanned == before + i && !raised
      invariant Progress(src, hasId, start, storage.State(), drivers, lastId, scanned)
      invariant AllConnect(drivers) ==> IntegralUpTo(src, hasId, scanned)
    {
      var row := rows[i];
      ghost var next := InsertStep(storage.State(), AsRecord(row), drivers(scanned));
      ProgressStep(src, hasId, start, storage.State(), drivers, lastId, scanned, row);
      RaisesIff(src, hasId, start, storage.State(), next, drivers, if hasId then row.id else lastId, scanned, row);
      raised := storage.Insert(AsRecord(row), drivers(scanned));
      if raised {
        return;
      }
      if hasId {
        lastId := row.id;
      }
      scanned := scanned + 1;
    }
  }

  /** Once connected a row raises exactly when its hive_id is not integral. */
  lemma RaisesIff(src: Source, hasId: bool, start: Pg, pg: Pg, next: Pg, drivers: nat -> Driver,
                  last: int, scanned: nat, row: SourceRow)
    requires Progress(src, hasId, start, next, drivers, last, scanned + 1)
    requires row == Visible(src, hasId)[scanned]
    ensures Raises(pg, AsRecord(row), drivers(scanned)) ==> Stopped(src, hasId, start, next, drivers, scanned)
    ensures AllConnect(drivers) && IntegralUpTo(src, hasId, scanned) && !Raises(pg, AsRecord(row), drivers(scanned)) ==>
              IntegralUpTo(src, hasId, scanned + 1)
  {
    ConvertsIff(row);
    hide Extractable, HasIntegralHive, Visible, Inserted, NextPage, AsRecord;
  }

  lemma ProgressStep(src: Source, hasId: bool, start: Pg, pg: Pg, drivers: nat -> Driver,
                     last: int, scanned: nat, row: SourceRow)
    requires hasId ==> Ascending(src)
    requires Progress(src, hasId, start, pg, drivers, last, scanned)
    requires scanned < |Visible(src, hasId)| && row == Visible(src, hasId)[scanned]
    ensures var next := InsertStep(pg, AsRecord(row), drivers(scanned));
            Progress(src, hasId, start, next, drivers, if hasId then row.id else last, scanned + 1)
  {
    var all := Visible(src, hasId);
    if hasId {
      AfterRow(src, last, row);
    }
    hide After, Ascending, Visible, Run, InsertStep, AsRecord;
    assert all[scanned..][1..] == all[scanned + 1..];
    assert Calls(all[..scanned + 1], drivers) ==
           Calls(all[..scanned], drivers) + [Call(AsRecord(row), drivers(scanned))];
    RunAppend(start, Calls(all[..scanned], drivers), Call(AsRecord(row), drivers(scanned)));
  }

  lemma ReachStops(n: nat, batch: int, limit: Option<int>)
    ensures Reach(n, batch, limit, n) == n
    ensures batch == 0 ==> forall done: nat :: done <= n ==> Reach(n, batch, limit, done) == done
  {
  }

  lemma ReachStep(n: nat, batch: int, limit: Option<int>, done: nat, width: nat)
    requires done + width <= n && width > 0 && batch != 0
    requires width == if 0 < batch < n - done then batch else n - done
    ensures Reach(n, batch, limit, done) ==
            if limit.Some? && done + width >= limit.value then done + width else Reach(n, batch, limit, done + width)
    ensures width < batch ==> Reach(n, batch, limit, done + width) == done + width
  {
  }

  lemma LimitedRest(all: Source, done: nat, rows: Source, batch: int)
    requires done <= |all| && rows == Limited(all[done..], batch)
    ensures |rows| == if 0 <= batch < |all| - done then batch else |all| - done
    ensures rows == all[done..done + |rows|]
    ensures rows == [] ==> batch == 0 || done == |all|
  {
  }

  lemma PageIsNext(src: Source, hasId: bool, start: Pg, pg: Pg, drivers: nat -> Driver,
                   last: int, done: nat, rows: Source, batch: int)
    requires Progress(src, hasId, start, pg, drivers, last, done)
    requires rows == if hasId then Limited(After(src, last), batch) else Limited(Offset(src, done), batch)
    ensures var all := Visible(src, hasId);
            && done + |rows| <= |all| && rows == all[done..done + |rows|]
            && |rows| == (if 0 <= batch < |all| - done then batch else |all| - done)
            && (rows == [] ==> batch == 0 || done == |all|)
  {
    hide Inserted, Visible, After, Limited;
    LimitedRest(Visible(src, hasId), done, rows, batch);
  }

  lemma {:induction false} CopyAllConcat(t: Table, a: Source, b: Source)
    ensures CopyAll(t, a + b) == CopyAll(CopyAll(t, a), b)
    decreases a
  {
    if a == [] {
      assert a + b == b;
    } else {
      assert (a + b)[1..] == a[1..] + b;
      CopyAllConcat(InsertDoNothing(t, TargetRow(a[0])), a[1..], b);
    }
  }

  lemma {:induction false} AfterMembers(src: Source, last: int)
    ensures forall r :: r in After(src, last) <==> r in src && r.id > last
  {
    if src != [] {
      AfterMembers(src[1..], last);
    }
  }

  lemma VisibleMembers(src: Source, hasId: bool)
    ensures forall r :: r in Visible(src, hasId) ==> r in src
  {
    AfterMembers(src, 0);
  }

  /** Moving the keyset past the first row of a page drops exactly that row. */
  lemma {:induction false} AfterRow(src: Source, last: int, row: SourceRow)
    requires Ascending(src) && After(src, last) != [] && After(src, last)[0] == row
    ensures After(src, row.id) == After(src, last)[1..]
  {
    assert forall i :: 0 <= i < |src[1..]| ==> src[1..][i] == src[i + 1];
    if src[0].id > last {
      AfterAll(src[1..], last);
      AfterAll(src[1..], row.id);
    } else {
      AfterMembers(src, last);
      AfterRow(src[1..], last, row);
    }
  }

  lemma {:induction false} AfterAll(src: Source, last: int)
    requires forall r :: r in src ==> r.id > last
    ensures After(src, last) == src
  {
    if src != [] {
      AfterAll(src[1..], last);
    }
  }

  // -------------------------------------------------------------------------
  // What the copy promises
  // -------------------------------------------------------------------------

  /** Both pagings work through the same rows exactly when every id is positive: the keyset starts
      behind id 0. */
  lemma KeysetVisitsAllIff(src: Source)
    ensures Visible(src, true) == Visible(src, false) <==> forall r :: r in src ==> r.id > 0
    ensures Visible(src, false) == src && forall r :: r in Visible(src, true) <==> r in src && r.id > 0
  {
    AfterMembers(src, 0);
    if forall r :: r in src ==> r.id > 0 {
      AfterAll(src, 0);
    }
  }

  /** An unlimited run copies everything; a limited one stops within a batch of its limit. */
  lemma {:induction false} ReachBounds(n: nat, batch: int, limit: Option<int>, done: nat)
    requires done <= n && batch > 0
    ensures limit == None ==> Reach(n, batch, limit, done) == n
    ensures limit.Some? && done < limit.value ==> Reach(n, batch, limit, done) <= limit.value - 1 + batch
    ensures limit.Some? ==> Reach(n, batch, limit, done) == n || Reach(n, batch, limit, done) >= limit.value
    ensures limit.Some? && done >= limit.value ==> Reach(n, batch, limit, done) <= done + batch
    decreases n - done
  {
    if done < n {
      ReachBounds(n, batch, limit, if batch < n - done then done + batch else n);
    }
  }

  lemma {:induction false} CopyKeepsKeys(t: Table, rows: Source, k: Key)
    ensures HasKey(t, k) ==> HasKey(CopyAll(t, rows), k)
    decreases rows
  {
    if rows != [] {
      var next := InsertDoNothing(t, TargetRow(rows[0]));
      if HasKey(t, k) {
        var r :| r in t && r.key == k;
        assert r in next;
      }
      CopyKeepsKeys(next, rows[1..], k);
    }
  }

  lemma {:induction false} CopyIsIdleOnPresentKeys(t: Table, rows: Source)
    requires forall r :: r in rows ==> HasKey(t, TargetRow(r).key)
    ensures CopyAll(t, rows) == t
    decreases rows
  {
    if rows != [] {
      assert HasKey(t, TargetRow(rows[0]).key);
      CopyIsIdleOnPresentKeys(t, rows[1..]);
    }
  }

  lemma {:induction false} CopiedKeysArePresent(t: Table, rows: Source)
    ensures forall r :: r in rows ==> HasKey(CopyAll(t, rows), TargetRow(r).key)
    decreases rows
  {
    if rows != [] {
      var next := InsertDoNothing(t, TargetRow(rows[0]));
      CopiedKeysArePresent(next, rows[1..]);
      assert HasKey(next, TargetRow(rows[0]).key) by {
        if !HasKey(t, TargetRow(rows[0]).key) {
          assert next[|t|] == TargetRow(rows[0]);
        }
      }
      CopyKeepsKeys(next, rows[1..], TargetRow(rows[0]).key);
    }
  }

  /** A partial run followed by a full one leaves the target of one full run, and so does running
      the whole copy again. */
  lemma RerunChangesNothing(t: Table, rows: Source, cut: nat)
    requires cut <= |rows|
    ensures CopyAll(CopyAll(t, rows[..cut]), rows) == CopyAll(t, rows)
  {
    var head, tail := rows[..cut], rows[cut..];
    assert head + tail == rows;
    CopyAllConcat(t, head, tail);
    CopyAllConcat(CopyAll(t, head), head, tail);
    CopiedKeysArePresent(t, head);
    CopyIsIdleOnPresentKeys(CopyAll(t, head), head);
  }

  // -------------------------------------------------------------------------
  // A driver that fails
  // -------------------------------------------------------------------------

  /** Whatever the driver does, every row that was inserted is in the target or in the dump. */
  lemma CopiedRowsAreKept(pg: Pg, rows: Source, drivers: nat -> Driver)
    requires OneRowPerKey(pg.table) && AllConvert(rows) && forall i :: drivers(i).dumpWorks
    ensures var after := Run(pg, Calls(rows, drivers));
            && OneRowPerKey(after.table)
            && forall r :: r in rows ==> HasKey(after.table, TargetRow(r).key) || AsRecord(r) in after.dump
  {
    hide Run, Extractable, ExtractKey, ExtractFields, HasKey;
    var calls := Calls(rows, drivers);
    EveryCaptureIsKept(pg, calls);
    forall r | r in rows
      ensures Kept(Run(pg, calls), AsRecord(r))
    {
      var i :| 0 <= i < |rows| && rows[i] == r;
      assert calls[i].rec == AsRecord(r) && calls[i] in calls;
    }
  }

  /** With a driver that works the inserts are the plain copy. */
  lemma {:induction false} CleanRunIsCopyAll(pg: Pg, rows: Source, drivers: nat -> Driver)
    requires AllConvert(rows) && forall i :: drivers(i) == WORKING
    ensures var after := Run(pg, Calls(rows, drivers));
            after.table == CopyAll(pg.table, rows) && after.dump == pg.dump
    decreases rows
  {
    hide Extractable, ExtractKey, ExtractFields, AsRecord, HasKey;
    if rows != [] {
      var calls := Calls(rows, drivers);
      assert calls[0] == Call(AsRecord(rows[0]), WORKING);
      assert calls[1..] == Calls(rows[1..], drivers);
      assert rows[0] in rows;
      CleanRunIsCopyAll(InsertStep(pg, AsRecord(rows[0]), WORKING), rows[1..], drivers);
    }
  }

  /** A run under any driver, then a clean one: the target has the keys of one clean run, each
      once, so what was only dumped has come in as well, and nothing new is dumped. */
  lemma RerunMakesGood(pg: Pg, rows: Source, drivers: nat -> Driver, clean: nat -> Driver)
    requires OneRowPerKey(pg.table) && AllConvert(rows) && forall i :: clean(i) == WORKING
    ensures var first := Run(pg, Calls(rows, drivers));
            var second := Run(first, Calls(rows, clean));
            && OneRowPerKey(second.table) && second.dump == first.dump
            && (forall k :: HasKey(second.table, k) <==> HasKey(CopyAll(pg.table, rows), k))
            && (forall r :: r in rows ==> HasKey(second.table, TargetRow(r).key))
  {
    hide Run, CopyAll, Extractable, ExtractKey, ExtractFields, HasKey, Calls;
    var first := Run(pg, Calls(rows, drivers));
    RunGrows(pg, Calls(rows, drivers));
    RunGrows(first, Calls(rows, clean));
    CleanRunIsCopyAll(first, rows, clean);
    CopiedKeysArePresent(first.table, rows);
    forall k
      ensures HasKey(CopyAll(first.table, rows), k) <==> HasKey(CopyAll(pg.table, rows), k)
    {
      CopiedKeysIff(first.table, rows, k);
      CopiedKeysIff(pg.table, rows, k);
      FailingRunKeys(pg, rows, drivers, k);
    }
  }

  lemma {:induction false} CopiedKeysIff(t: Table, rows: Source, k: Key)
    ensures HasKey(CopyAll(t, rows), k) <==> HasKey(t, k) || exists r :: r in rows && TargetRow(r).key == k
    decreases rows
  {
    hide ExtractKey, ExtractFields;
    if rows != [] {
      var row := TargetRow(rows[0]);
      var next := InsertDoNothing(t, row);
      CopiedKeysIff(next, rows[1..], k);
      if !HasKey(t, row.key) {
        assert next[|t|] == row;
        assert forall r :: r in t ==> r in next;
      }
    }
  }

  lemma FailingRunKeys(pg: Pg, rows: Source, drivers: nat -> Driver, k: Key)
    requires OneRowPerKey(pg.table)
    ensures var after := Run(pg, Calls(rows, drivers)).table;
            && (HasKey(pg.table, k) ==> HasKey(after, k))
            && (HasKey(after, k) ==> HasKey(pg.table, k) || exists r :: r in rows && TargetRow(r).key == k)
  {
    hide Run, ExtractKey, ExtractFields;
    var calls := Calls(rows, drivers);
    RunGrows(pg, calls);
    if HasKey(pg.table, k) {
      var r :| r in pg.table && r.key == k;
      assert r in Run(pg, calls).table;
    } else if HasKey(Run(pg, calls).table, k) {
      RunKeysWithin(pg, calls, k);
      var c :| c in calls && ExtractKey(c.rec) == k;
      var i :| 0 <= i < |calls| && calls[i] == c;
      assert rows[i] in rows && TargetRow(rows[i]).key == k;
    }
  }

  // -------------------------------------------------------------------------
  // Which columns arrive
  // -------------------------------------------------------------------------

  function StoredColumn(row: SourceRow, c: Name): Value {
    ColumnOf(TargetRow(row).key, TargetRow(row).body, c)
  }

  /** The columns hold what the schema declares. */
  predicate Typed(row: SourceRow) {
    forall c :: c in row.columns ==> if IsInteger(c) then !row.columns[c].Text? else !row.columns[c].Number?
  }

  /** The value is unchanged, up to emptiness and the escaping of NUL characters. */
  predicate Arrives(before: Value, after: Value) {
    || after == before
    || (!Truthy(before) && !Truthy(after))
    || (before.Text? && after == Text(EscapeNul(before.text)))
  }

  /** A column reaches the target unchanged, for every row, if and only if its own name is one of
      the keys the extraction reads. The other eight, the address and the request among them,
      arrive empty. */
  lemma ColumnArrivesIff(c: Name)
    requires IsColumn(c)
    ensures (forall row :: Typed(row) ==> Arrives(Get(AsRecord(row), c), StoredColumn(row, c))) <==> IsRead(c)
  {
    hide EscapeNul, Typed, AsRecord, Arrives, StoredColumn;
    if IsRead(c) {
      forall row | Typed(row)
        ensures Arrives(Get(AsRecord(row), c), StoredColumn(row, c))
      {
        ReadColumnArrives(row, c);
      }
    } else {
      var value := if c == DetectedId then Number(1) else Text("x");
      var row := SourceRow(1, map[c := value]);
      UnreadColumnIsEmpty(row, c);
      OneColumnRow(row, c, value);
      assert Typed(row) && !Arrives(Get(AsRecord(row), c), StoredColumn(row, c));
    }
  }

  lemma OneColumnRow(row: SourceRow, c: Name, value: Value)
    requires row.columns == map[c := value] && value == (if c == DetectedId then Number(1) else Text("x"))
    requires !IsInteger(c) || c == DetectedId
    ensures Typed(row) && Get(AsRecord(row), c) == value && Truthy(value)
    ensures forall after :: !Truthy(after) ==> !Arrives(value, after)
  {
    hide Sources, ConvertsToInt, Typed;
    assert Typed(row) by {
      TypedColumn(row, c, value);
    }
    assert EscapeNul("x") == "x";
  }

  lemma TypedColumn(row: SourceRow, c: Name, value: Value)
    requires row.columns == map[c := value] && (if IsInteger(c) then !value.Text? else !value.Number?)
    ensures Typed(row)
  {
  }

  lemma StoredColumnIs(row: SourceRow, c: Name)
    requires IsColumn(c)
    ensures StoredColumn(row, c) == Stored(AsRecord(row), c)
  {
    hide Stored, ExtractKey, ExtractFields, ColumnOf;
    ColumnIsStored(AsRecord(row), c);
  }

  lemma ReadColumnArrives(row: SourceRow, c: Name)
    requires IsColumn(c) && IsRead(c) && Typed(row)
    ensures Arrives(Get(AsRecord(row), c), StoredColumn(row, c))
  {
    hide EscapeNul, StoredColumn, TextOf, Sources, ConvertsToInt, DigitsValue, AsRecord, Shown;
    StoredColumnIs(row, c);
    TypedValue(row, c);
    var v := Get(AsRecord(row), c);
    if IsInteger(c) {
      NumbersConvert();
    } else {
      TextArrives(v);
      SourcesOfRead(row, c);
    }
  }

  lemma TypedValue(row: SourceRow, c: Name)
    requires IsColumn(c) && Typed(row)
    ensures var v := Get(AsRecord(row), c);
            if IsInteger(c) then !v.Text? else !v.Number?
  {
  }

  lemma NumbersConvert()
    ensures forall n :: ConvertsToInt(Number(n))
  {
  }

  /** A text column whose name is read is tried under its own name, other names find nothing. */
  lemma SourcesOfRead(row: SourceRow, c: Name)
    requires IsColumn(c) && IsRead(c)
    ensures var v := Get(AsRecord(row), c);
            var sources := Sources(AsRecord(row), c);
            sources == [v] || sources == [v, Null] || sources == [Null, v] || sources == [Null, Null, v]
  {
    assert !IsColumn(HiveLogin) && Get(AsRecord(row), HiveLogin) == Null;
  }

  /** However many other keys are tried before or after it. */
  lemma TextArrives(v: Value)
    requires !v.Number?
    ensures Arrives(v, TextOf([v])) && Arrives(v, TextOf([v, Null]))
    ensures Arrives(v, TextOf([Null, v])) && Arrives(v, TextOf([Null, Null, v]))
    ensures v.Text? ==> Arrives(v, Text(EscapeNul(Shown(v))))
  {
    assert [v][1..] == [] && [Null, v][1..] == [v] && [Null, Null, v][1..] == [Null, v];
    assert [v, Null][1..] == [Null] && [Null][1..] == [];
    assert FirstTruthy([Null]) == "";
    assert FirstTruthy([v]) == if Truthy(v) then Shown(v) else "";
    assert EscapeNul("") == "";
  }

  /** A column of another name is never seen: what is stored is empty, zero or NULL. */
  lemma UnreadColumnIsEmpty(row: SourceRow, c: Name)
    requires IsColumn(c) && !IsRead(c)
    ensures !Truthy(StoredColumn(row, c))
  {
    hide StoredColumn, TextOf, Sources, ConvertsToInt, DigitsValue, AsRecord;
    StoredColumnIs(row, c);
    NothingStoresEmpty();
    NoSourceIsSet(row, c);
  }

  lemma NoSourceIsSet(row: SourceRow, c: Name)
    requires IsColumn(c) && !IsRead(c)
    ensures c.DetectedId? || Sources(AsRecord(row), c) == [Null] || Sources(AsRecord(row), c) == [Null, Null]
    ensures DetectedOf(AsRecord(row)) == Null
  {
    hide Get, GetParsed, AsRecord;
    NoSuchColumn(row);
    assert !IsColumn(IsDetected) && !IsColumn(IsDetectedAlias);
  }

  lemma NoSuchColumn(row: SourceRow)
    ensures forall k: Name :: !IsColumn(k) ==> Get(AsRecord(row), k) == Null
    ensures GetParsed(AsRecord(row), UserAgent) == Null
  {
  }

  lemma NothingStoresEmpty()
    ensures TextOf([Null]) == Text("") && TextOf([Null, Null]) == Text("")
  {
    assert [Null, Null][1..] == [Null] && [Null][1..] == [];
    assert FirstTruthy([Null]) == "";
    assert EscapeNul("") == "";
  }

  /** The source column is named `bot_ip`, the record key `ip`: every copied row gets an empty
      address. */
  lemma CopiedAddressIsEmpty(row: SourceRow)
    ensures TargetRow(row).key == Key("", StampOf(row))
  {
    UnreadColumnIsEmpty(row, BotIp);
  }

  function StampOf(row: SourceRow): string {
    ExtractKey(AsRecord(row)).timestamp
  }

  /** No two rows share a timestamp, and none is in the target without an address. */
  predicate TimestampsAreFree(t: Table, rows: Source) {
    && (forall r :: r in rows ==> !HasKey(t, Key("", StampOf(r))))
    && (forall i, j :: 0 <= i < j < |rows| ==> StampOf(rows[i]) != StampOf(rows[j]))
  }

  lemma {:induction false} CopyGrowsByAtMost(t: Table, rows: Source)
    ensures |t| <= |CopyAll(t, rows)| <= |t| + |rows|
    decreases rows
  {
    if rows != [] {
      CopyGrowsByAtMost(InsertDoNothing(t, TargetRow(rows[0])), rows[1..]);
    }
  }

  /** Every visited row becomes a row of its own exactly when the timestamps alone tell the rows
      apart: captures of different bots at one timestamp collapse into the first of them. */
  lemma {:induction false} EveryRowSurvivesIff(t: Table, rows: Source)
    ensures |CopyAll(t, rows)| == |t| + |rows| <==> TimestampsAreFree(t, rows)
    decreases rows
  {
    if rows != [] {
      var row, rest := TargetRow(rows[0]), rows[1..];
      var next := InsertDoNothing(t, row);
      CopiedAddressIsEmpty(rows[0]);
      CopyGrowsByAtMost(next, rest);
      EveryRowSurvivesIff(next, rest);
      if HasKey(t, row.key) {
        assert rows[0] in rows;
      } else {
        FreeAfterFirst(t, rows);
      }
    }
  }

  lemma FreeAfterFirst(t: Table, rows: Source)
    requires rows != [] && !HasKey(t, TargetRow(rows[0]).key)
    ensures TimestampsAreFree(t, rows) <==> TimestampsAreFree(t + [TargetRow(rows[0])], rows[1..])
  {
    hide StampOf, TargetRow;
    CopiedAddressIsEmpty(rows[0]);
    var row, rest := TargetRow(rows[0]), rows[1..];
    var next := t + [row];
    assert next[|t|] == row;
    forall k
      ensures HasKey(next, k) <==> HasKey(t, k) || k == row.key
    {
      if HasKey(t, k) {
        var r :| r in t && r.key == k;
        assert r in next;
      }
    }
    assert forall i :: 0 <= i < |rest| ==> rest[i] == rows[i + 1];
    if TimestampsAreFree(next, rest) {
      forall i, j | 0 <= i < j < |rows|
        ensures StampOf(rows[i]) != StampOf(rows[j])
      {
        assert rows[j] == rest[j - 1] && rest[j - 1] in rest;
        if i == 0 {
          assert !HasKey(next, Key("", StampOf(rows[j])));
        } else {
          assert rows[i] == rest[i - 1];
        }
      }
      forall r | r in rows
        ensures !HasKey(t, Key("", StampOf(r)))
      {
        assert r == rows[0] || r in rest;
      }
    }
    if TimestampsAreFree(t, rows) {
      forall r | r in rest
        ensures !HasKey(next, Key("", StampOf(r)))
      {
        var i :| 0 <= i < |rest| && rest[i] == r;
        assert rows[i + 1] == r && rows[i + 1] in rows;
      }
    }
  }
}

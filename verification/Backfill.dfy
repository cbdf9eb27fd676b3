/** The classification backfill (scripts/enrich_historical.py): batches of rows whose
    classification is NULL, one transaction a batch, resumable after a cut or an error. */
module Backfill {
  import opened Wrappers

  /** A captured row; `classification` is None while it is NULL. */
  datatype Row = Row(id: int, ip: string, asn: string, org: string, dns: string, agent: string,
                     classification: Option<string>, source: string)

  type Table = seq<Row>

  /** The geolocation lookup and the classifier, both fixed for the run. */
  datatype Env = Env(lookup: string -> (string, string), classify: (string, string, string, string) -> (string, string))

  predicate DistinctIds(t: Table) {
    forall i, j :: 0 <= i < j < |t| ==> t[i].id != t[j].id
  }

  predicate NeedsLookup(row: Row) {
    row.ip != "" && row.asn == "" && row.org == ""
  }

  /** `_classify_row` and the UPDATE of its result, seen as one function of the row. */
  function Classified(env: Env, row: Row): Row {
    var (asn, org) := if NeedsLookup(row) then env.lookup(row.ip) else (row.asn, row.org);
    var (classification, source) := env.classify(row.dns, org, asn, row.agent);
    row.(asn := asn, org := org, classification := Some(classification), source := source)
  }

  /** SELECT ... WHERE classification IS NULL ORDER BY id; tables are kept in id order. */
  function NullRows(t: Table): Table {
    if t == [] then []
    else (if t[0].classification == None then [t[0]] else []) + NullRows(t[1..])
  }

  /** LIMIT n: a negative limit is none. */
  function Limited(t: Table, n: int): Table {
    if 0 <= n < |t| then t[..n] else t
  }

  function NotSeen(rows: Table, seen: set<int>): Table {
    if rows == [] then []
    else (if rows[0].id in seen then [] else [rows[0]]) + NotSeen(rows[1..], seen)
  }

  /** UPDATE honeypot_bears SET ... WHERE id = row.id. */
  function Update(t: Table, row: Row): Table {
    if t == [] then []
    else [if t[0].id == row.id then row else t[0]] + Update(t[1..], row)
  }

  /** The first `n` NULL rows classified, everything else as it was. */
  function Drained(env: Env, t: Table, n: nat): Table {
    if t == [] then []
    else if t[0].classification == None && n > 0 then [Classified(env, t[0])] + Drained(env, t[1..], n - 1)
    else [t[0]] + Drained(env, t[1..], n)
  }

  function UpTo(limit: Option<int>, n: nat): nat {
    if limit == None || limit.value >= n then n else if limit.value < 0 then 0 else limit.value
  }

  /** The number of rows one SELECT returns when `n` are NULL. */
  function Width(n: nat, batch: int): nat {
    if 0 <= batch < n then batch else n
  }

  /** How many of `n` NULL rows a run without errors processes. */
  function GoalOf(n: nat, batch: int, dryRun: bool, limit: Option<int>): nat {
    if batch == 0 then 0 else UpTo(limit, if dryRun then Width(n, batch) else n)
  }

  function Goal(t: Table, batch: int, dryRun: bool, limit: Option<int>): nat {
    GoalOf(|NullRows(t)|, batch, dryRun, limit)
  }

  /** The rows of the whole batches among the first `f`. */
  function WholeBatches(f: nat, batch: int): (c: nat)
    ensures c <= f
  {
    if 0 < batch <= f then batch + WholeBatches(f - batch, batch) else 0
  }

  /** The database error a run meets, if any: at the UPDATE of one row, at the commit made when so
      many rows are processed, or at a read (the SELECT of a batch, the count after a commit). */
  datatype Fault = NoFault | AtUpdate(row: nat) | AtCommit(rows: nat) | AtRead(rows: nat)

  /** An UPDATE fails before `n` rows are processed. */
  predicate UpdateFails(fault: Fault, dryRun: bool, n: nat) {
    !dryRun && fault.AtUpdate? && fault.row < n
  }

  predicate LimitReached(limit: Option<int>, p: nat) {
    limit.Some? && p >= limit.value
  }

  /** A transaction ends after `p` rows: at a whole number of batches, and at the end. */
  predicate IsStop(p: nat, goal: nat, batch: int) {
    p == goal || (p < goal && WholeBatches(p, batch) == p)
  }

  /** The run gets to the faulty operation. */
  predicate Hits(fault: Fault, dryRun: bool, limit: Option<int>, goal: nat, batch: int) {
    match fault
    case NoFault => false
    case AtUpdate(row) => !dryRun && row < goal
    case AtCommit(rows) => !dryRun && IsStop(rows, goal, batch) && (rows > 0 || goal == 0)
    case AtRead(rows) => IsStop(rows, goal, batch) && (!LimitReached(limit, rows) || (rows > 0 && !dryRun))
  }

  /** The rows whose classification is committed when it does. */
  function Saved(fault: Fault, batch: int): nat {
    match fault
    case NoFault => 0
    case AtUpdate(row) => WholeBatches(row, batch)
    case AtCommit(rows) => if rows == 0 then 0 else WholeBatches(rows - 1, batch)
    case AtRead(rows) => rows
  }

  class Backfiller {
    const env: Env
    var table: Table
    var asnCache: map<string, (string, string)>
    var lookups: seq<string>

    constructor (env: Env, table: Table)
      ensures this.env == env && this.table == table
    {
      this.env, this.table, asnCache, lookups := env, table, map[], [];
    }

    /** The cache holds the answers to the lookups made so far, each address once. */
    ghost predicate CacheValid()
      reads `asnCache, `lookups
    {
      && (forall ip :: ip in asnCache ==> asnCache[ip] == env.lookup(ip))
      && (forall ip :: ip in asnCache <==> ip in lookups)
      && (forall i, j :: 0 <= i < j < |lookups| ==> lookups[i] != lookups[j])
    }

    method ClassifyRow(row: Row) returns (done: Row)
      requires CacheValid()
      modifies `asnCache, `lookups
      ensures CacheValid() && done == Classified(env, row)
    {
      var asn, org := row.asn, row.org;
      if NeedsLookup(row) {
        if row.ip !in asnCache {
          lookups := lookups + [row.ip];
          asnCache := asnCache[row.ip := env.lookup(row.ip)];
        }
        asn, org := asnCache[row.ip].0, asnCache[row.ip].1;
      }
      var (classification, source) := env.classify(row.dns, org, asn, row.agent);
      done := row.(asn := asn, org := org, classification := Some(classification), source := source);
    }

    /** The rows of one batch, until they or the limit run out or an UPDATE fails. */
    method Batch(ghost nulls: Table, first: nat, newRows: Table, before: set<int>, dryRun: bool, limit: Option<int>,
                 fault: Fault, ghost start: Table)
      returns (processed: nat, seen: set<int>, ok: bool)
      requires DistinctIds(start) && nulls == NullRows(start) && CacheValid()
      requires first + |newRows| <= |nulls| && newRows == nulls[first..first + |newRows|]
      requires before == IdsOf(nulls, first) && first <= UpTo(limit, |nulls|)
      requires !dryRun ==> table == Drained(env, start, first)
      requires !UpdateFails(fault, dryRun, first)
      modifies this
      ensures CacheValid() && first <= processed <= |nulls| && seen == IdsOf(nulls, processed)
      ensures dryRun ==> table == old(table)
      ensures ok ==> processed == UpTo(limit, first + |newRows|)
      ensures ok && !dryRun ==> table == Drained(env, start, processed)
      ensures ok <==> !UpdateFails(fault, dryRun, UpTo(limit, first + |newRows|))
    {
      hide NullRows, Drained, Update, DistinctIds, Classified, NeedsLookup, IdsOf;
      processed, seen, ok := first, before, true;
      var i := 0;
      while i < |newRows| && !(limit.Some? && processed >= limit.value)
        invariant CacheValid()
        invariant i <= |newRows| && processed == first + i <= UpTo(limit, |nulls|)
        invariant seen == IdsOf(nulls, processed)
        invariant dryRun ==> table == old(table)
        invariant !dryRun ==> table == Drained(env, start, processed)
        invariant !UpdateFails(fault, dryRun, processed)
      {
        var r := newRows[i];
        assert r == nulls[processed];
        var done := ClassifyRow(r);
        IdsOfNext(nulls, processed);
        seen := seen + {r.id};
        processed := processed + 1;
        i := i + 1;
        if !dryRun {
          if fault == AtUpdate(processed - 1) {
            ok := false;
            return;
          }
          DrainedNext(env, start, processed - 1);
          table := Update(table, done);
        }
      }
    }

    /** One turn of the drain loop, up to the commit: `more` is false when it breaks out before any
        row. */
    method Turn(batch: int, dryRun: bool, limit: Option<int>, fault: Fault,
                first: nat, before: set<int>, ghost start: Table)
      returns (processed: nat, seen: set<int>, more: bool, ok: bool)
      requires DistinctIds(start) && CacheValid()
      requires first <= UpTo(limit, |NullRows(start)|) && before == IdsOf(NullRows(start), first)
      requires table == if dryRun then start else Drained(env, start, first)
      requires (dryRun ==> first == 0 || first == Goal(start, batch, true, limit)) && (batch == 0 ==> first == 0)
      requires !UpdateFails(fault, dryRun, first)
      modifies this
      ensures CacheValid() && first <= processed <= |NullRows(start)| && seen == IdsOf(NullRows(start), processed)
      ensures ok <==> !TurnFails(|NullRows(start)|, first, batch, dryRun, limit, fault)
      ensures ok ==> (more <==> Continues(|NullRows(start)|, first, batch, dryRun, limit))
      ensures ok ==> processed == if more then NextStop(|NullRows(start)|, first, batch, dryRun, limit) else first
      ensures ok ==> table == if dryRun then start else Drained(env, start, processed)
    {
      hide UpTo, Width, GoalOf, NullRows, Drained, NotSeen, DistinctIds, IdsOf, Limited, Classified, UpdateFails;
      processed, seen, more, ok := first, before, false, true;
      TurnReaches(|NullRows(start)|, first, batch, dryRun, limit);
      if limit.Some? && processed >= limit.value {
        return;
      }
      if fault == AtRead(processed) {
        ok := false;
        return;
      }
      DrainedNulls(env, start, processed);
      NullRowsDistinct(start);
      ghost var nulls := NullRows(start);
      var rows := Limited(NullRows(table), batch);
      var newRows := NotSeen(rows, seen);
      PageOfNulls(nulls, rows, batch, dryRun, limit, first);
      SelectsNextRows(nulls, rows, newRows, seen, processed, batch, dryRun);
      if rows == [] {
        return;
      }
      if newRows == [] {
        return;
      }
      more := true;
      processed, seen, ok := Batch(nulls, first, newRows, before, dryRun, limit, fault, start);
      if ok && !dryRun && fault == AtCommit(processed) {
        ok := false;
      }
    }

    /** The run fails exactly when it gets to the faulty operation, and then what it had committed
        stays. A run that does not fail classifies exactly the first Goal NULL rows, none at all in a
        dry run. No address is looked up twice. */
    method Run(batch: int, dryRun: bool, limit: Option<int>, fault: Fault)
      returns (processed: nat, ok: bool)
      requires DistinctIds(table)
      modifies this
      ensures CacheValid()
      ensures ok <==> NullRows(old(table)) == []
                      || !Hits(fault, dryRun, limit, Goal(old(table), batch, dryRun, limit), batch)
      ensures ok ==> processed == Goal(old(table), batch, dryRun, limit)
      ensures table == if dryRun then old(table)
                       else Drained(env, old(table), if ok then processed else Saved(fault, batch))
    {
      processed, ok := 0, true;
      asnCache, lookups := map[], [];
      DrainedNone(env, table);
      if |NullRows(table)| == 0 {
        return;
      }
      hide NullRows, Drained, DistinctIds, CacheValid, GoalOf, Hits, Saved, Ends, EndFrom, UpdateFails;
      ghost var n := |NullRows(table)|;
      FromTheStart(n, batch, dryRun, limit, fault);
      processed, ok := Drain(batch, dryRun, limit, fault);
    }

    method Drain(batch: int, dryRun: bool, limit: Option<int>, fault: Fault)
      returns (processed: nat, ok: bool)
      requires DistinctIds(table) && CacheValid()
      modifies this
      ensures CacheValid()
      ensures var end := Ends(|NullRows(old(table))|, 0, batch, dryRun, limit, fault);
              && (ok <==> end == None)
              && (ok ==> processed == Goal(old(table), batch, dryRun, limit))
              && table == if dryRun then old(table)
                          else Drained(env, old(table), if ok then processed else end.value)
    {
      hide CacheValid, NullRows, Drained, DistinctIds, IdsOf, UpTo, Width, GoalOf, WholeBatches, Ends, UpdateFails,
        TurnFails, Continues, NextStop;
      processed, ok := 0, true;
      ghost var start := table;
      ghost var n := |NullRows(start)|;
      DrainedNone(env, start);
      AtTheStart(start, n, limit, fault, dryRun);
      var saved := table;
      var seen: set<int> := {};
      var more := true;
      while more
        invariant CacheValid() && ok
        invariant processed <= n && processed <= UpTo(limit, n) && seen == IdsOf(NullRows(start), processed)
        invariant saved == table == if dryRun then start else Drained(env, start, processed)
        invariant dryRun ==> processed == 0 || processed == GoalOf(n, batch, true, limit)
        invariant batch == 0 ==> processed == 0
        invariant !UpdateFails(fault, dryRun, processed)
        invariant !more ==> processed == GoalOf(n, batch, dryRun, limit)
        invariant Ends(n, 0, batch, dryRun, limit, fault) ==
                  if more then Ends(n, processed, batch, dryRun, limit, fault) else LastCommit(processed, dryRun, fault)
        decreases more, n - processed
      {
        EndsStep(n, processed, batch, dryRun, limit, fault);
        processed, seen, more, ok := Turn(batch, dryRun, limit, fault, processed, seen, start);
        if !ok {
          table := saved;
          return;
        }
        saved := table;
        if more && !dryRun && fault == AtRead(processed) {
          ok := false;
          return;
        }
      }
      if !dryRun && fault == AtCommit(processed) {
        ok := false;
      }
    }
  }

  lemma AtTheStart(t: Table, n: nat, limit: Option<int>, fault: Fault, dryRun: bool)
    ensures IdsOf(NullRows(t), 0) == {} && !UpdateFails(fault, dryRun, 0) && 0 <= UpTo(limit, n) <= n
  {
  }

  // -------------------------------------------------------------------------
  // Where a run stops
  // -------------------------------------------------------------------------

  /** The next SELECT finds rows this run has not seen. */
  predicate Continues(n: nat, p: nat, batch: int, dryRun: bool, limit: Option<int>)
    requires p <= n
  {
    !LimitReached(limit, p) && !(dryRun && p > 0) && Width(n - p, batch) > 0
  }

  function NextStop(n: nat, p: nat, batch: int, dryRun: bool, limit: Option<int>): nat
    requires p <= n
  {
    UpTo(limit, p + Width(n - p, batch))
  }

  /** The turn that starts at `p` does not get to the end of its commit. */
  predicate TurnFails(n: nat, p: nat, batch: int, dryRun: bool, limit: Option<int>, fault: Fault)
    requires p <= n
  {
    !LimitReached(limit, p) &&
    (fault == AtRead(p) ||
     (Continues(n, p, batch, dryRun, limit) &&
      var next := NextStop(n, p, batch, dryRun, limit);
      UpdateFails(fault, dryRun, next) || (!dryRun && fault == AtCommit(next))))
  }

  /** The commit after the loop; None is success. */
  function LastCommit(p: nat, dryRun: bool, fault: Fault): Option<nat> {
    if !dryRun && fault == AtCommit(p) then Some(p) else None
  }

  /** How a run goes on from `p` rows: None when it succeeds, else the rows it leaves committed. */
  function Ends(n: nat, p: nat, batch: int, dryRun: bool, limit: Option<int>, fault: Fault): Option<nat>
    requires p <= UpTo(limit, n)
    decreases n - p
  {
    if TurnFails(n, p, batch, dryRun, limit, fault) then Some(p)
    else if !Continues(n, p, batch, dryRun, limit) then LastCommit(p, dryRun, fault)
    else
      var next := NextStop(n, p, batch, dryRun, limit);
      if !dryRun && fault == AtRead(next) then Some(next) else Ends(n, next, batch, dryRun, limit, fault)
  }

  lemma EndsStep(n: nat, p: nat, batch: int, dryRun: bool, limit: Option<int>, fault: Fault)
    requires p <= UpTo(limit, n) && !UpdateFails(fault, dryRun, p) && (batch == 0 ==> p == 0)
    requires dryRun ==> p == 0 || p == GoalOf(n, batch, true, limit)
    ensures UpTo(limit, n) <= n
    ensures var goal, end := GoalOf(n, batch, dryRun, limit), Ends(n, p, batch, dryRun, limit, fault);
            if TurnFails(n, p, batch, dryRun, limit, fault) then end == Some(p)
            else if !Continues(n, p, batch, dryRun, limit) then p == goal && end == LastCommit(p, dryRun, fault)
            else
              var next := NextStop(n, p, batch, dryRun, limit);
              && p < next <= UpTo(limit, n) && !UpdateFails(fault, dryRun, next) && batch != 0
              && (dryRun ==> next == goal)
              && end == if !dryRun && fault == AtRead(next) then Some(next)
                        else Ends(n, next, batch, dryRun, limit, fault)
  {
    TurnReaches(n, p, batch, dryRun, limit);
  }

  /** At `c` rows, counted from the stop `p`, a transaction ends. */
  predicate StopsAt(c: nat, p: nat, goal: nat, batch: int)
    requires c >= p
  {
    c == goal || (c < goal && WholeBatches(c - p, batch) == c - p)
  }

  /** A turn that continues goes on by a whole batch, or to the goal. */
  predicate IsTurn(p: nat, next: nat, goal: nat, batch: int) {
    p < next <= goal && (if next < goal then next - p == batch else batch <= 0 || goal - p <= batch)
  }

  lemma TurnIs(n: nat, p: nat, batch: int, dryRun: bool, limit: Option<int>)
    requires p <= UpTo(limit, n) && (batch == 0 ==> p == 0)
    requires dryRun ==> p == 0 || p == GoalOf(n, batch, true, limit)
    requires Continues(n, p, batch, dryRun, limit)
    ensures IsTurn(p, NextStop(n, p, batch, dryRun, limit), GoalOf(n, batch, dryRun, limit), batch)
  {
  }

  /** Stops and whole batches, counted from the next stop on. */
  lemma StopsFromNext(p: nat, next: nat, c: nat, goal: nat, batch: int)
    requires IsTurn(p, next, goal, batch) && c >= p
    ensures p < c < next ==> !StopsAt(c, p, goal, batch)
    ensures c < next ==> WholeBatches(c - p, batch) == 0
    ensures c == next ==> StopsAt(c, p, goal, batch) && WholeBatches(c - p - 1, batch) == 0
    ensures c >= next ==> (StopsAt(c, p, goal, batch) <==> StopsAt(c, next, goal, batch))
    ensures next <= c < goal ==> p + WholeBatches(c - p, batch) == next + WholeBatches(c - next, batch)
    ensures next < c <= goal ==> p + WholeBatches(c - p - 1, batch) == next + WholeBatches(c - next - 1, batch)
  {
  }

  /** From any stop on: which operations the run gets to, and what is committed by then. */
  function EndFrom(p: nat, goal: nat, batch: int, dryRun: bool, limit: Option<int>, fault: Fault): Option<nat>
    requires fault.AtUpdate? && !dryRun ==> p <= fault.row
  {
    match fault
    case NoFault => None
    case AtUpdate(row) => if !dryRun && row < goal then Some(p + WholeBatches(row - p, batch)) else None
    case AtCommit(c) =>
      if dryRun || c < p || !StopsAt(c, p, goal, batch) || (c == p && p < goal) then None
      else if c == p then Some(p) else Some(p + WholeBatches(c - p - 1, batch))
    case AtRead(c) =>
      if c >= p && StopsAt(c, p, goal, batch) && (!LimitReached(limit, c) || (c > p && !dryRun)) then Some(c) else None
  }

  lemma {:induction false} EndsWhere(n: nat, p: nat, batch: int, dryRun: bool, limit: Option<int>, fault: Fault)
    requires p <= UpTo(limit, n) && !UpdateFails(fault, dryRun, p) && (batch == 0 ==> p == 0)
    requires dryRun ==> p == 0 || p == GoalOf(n, batch, true, limit)
    ensures Ends(n, p, batch, dryRun, limit, fault) ==
            EndFrom(p, GoalOf(n, batch, dryRun, limit), batch, dryRun, limit, fault)
    decreases n - p
  {
    hide Ends, EndFrom, GoalOf, UpTo, Continues, TurnFails, NextStop;
    var goal := GoalOf(n, batch, dryRun, limit);
    EndsStep(n, p, batch, dryRun, limit, fault);
    if TurnFails(n, p, batch, dryRun, limit, fault) {
      FailingTurn(n, p, goal, batch, dryRun, limit, fault);
    } else if Continues(n, p, batch, dryRun, limit) {
      var next := NextStop(n, p, batch, dryRun, limit);
      TurnIs(n, p, batch, dryRun, limit);
      PassingTurn(n, p, goal, batch, dryRun, limit, fault);
      if dryRun || fault != AtRead(next) {
        EndsWhere(n, next, batch, dryRun, limit, fault);
      }
    } else {
      AtTheGoal(n, p, batch, dryRun, limit, fault);
    }
  }

  lemma FromTheStart(n: nat, batch: int, dryRun: bool, limit: Option<int>, fault: Fault)
    ensures Ends(n, 0, batch, dryRun, limit, fault) ==
            if Hits(fault, dryRun, limit, GoalOf(n, batch, dryRun, limit), batch) then Some(Saved(fault, batch))
            else None
  {
    hide Ends, GoalOf, WholeBatches;
    NothingIsWhole(batch);
    EndsWhere(n, 0, batch, dryRun, limit, fault);
  }

  lemma FailingTurn(n: nat, p: nat, goal: nat, batch: int, dryRun: bool, limit: Option<int>, fault: Fault)
    requires p <= UpTo(limit, n) <= n && !UpdateFails(fault, dryRun, p) && goal == GoalOf(n, batch, dryRun, limit)
    requires batch == 0 ==> p == 0
    requires dryRun ==> p == 0 || p == goal
    requires TurnFails(n, p, batch, dryRun, limit, fault)
    ensures EndFrom(p, goal, batch, dryRun, limit, fault) == Some(p)
  {
    hide GoalOf, UpTo;
    if Continues(n, p, batch, dryRun, limit) {
      TurnIs(n, p, batch, dryRun, limit);
      var next := NextStop(n, p, batch, dryRun, limit);
      hide NextStop, Continues, WholeBatches;
      match fault
      case AtUpdate(row) => StopsFromNext(p, next, row, goal, batch);
      case AtCommit(c) => StopsFromNext(p, next, c, goal, batch);
      case AtRead(c) => NothingIsWhole(batch);
      case NoFault =>
    } else {
      NothingIsWhole(batch);
      TurnReaches(n, p, batch, dryRun, limit);
    }
  }

  lemma NothingIsWhole(batch: int)
    ensures WholeBatches(0, batch) == 0
  {
  }

  lemma PassingTurn(n: nat, p: nat, goal: nat, batch: int, dryRun: bool, limit: Option<int>, fault: Fault)
    requires p <= n && Continues(n, p, batch, dryRun, limit) && !TurnFails(n, p, batch, dryRun, limit, fault)
    requires IsTurn(p, NextStop(n, p, batch, dryRun, limit), goal, batch) && !UpdateFails(fault, dryRun, p)
    requires dryRun ==> NextStop(n, p, batch, dryRun, limit) == goal
    ensures var next := NextStop(n, p, batch, dryRun, limit);
            EndFrom(p, goal, batch, dryRun, limit, fault) ==
            if !dryRun && fault == AtRead(next) then Some(next) else EndFrom(next, goal, batch, dryRun, limit, fault)
  {
    hide NextStop, WholeBatches;
    var next := NextStop(n, p, batch, dryRun, limit);
    NothingIsWhole(batch);
    match fault
    case AtUpdate(row) =>
      if !dryRun {
        StopsFromNext(p, next, row, goal, batch);
      }
    case AtCommit(c) =>
      if c >= p {
        StopsFromNext(p, next, c, goal, batch);
      }
    case AtRead(c) =>
      if c >= p {
        StopsFromNext(p, next, c, goal, batch);
      }
    case NoFault =>
  }

  lemma AtTheGoal(n: nat, p: nat, batch: int, dryRun: bool, limit: Option<int>, fault: Fault)
    requires p <= n && p == GoalOf(n, batch, dryRun, limit) && !UpdateFails(fault, dryRun, p)
    requires !TurnFails(n, p, batch, dryRun, limit, fault)
    ensures EndFrom(p, p, batch, dryRun, limit, fault) == LastCommit(p, dryRun, fault)
  {
    hide Continues, GoalOf;
  }

  /** In other words: the greatest multiple of the batch size that is no more than `f`; a negative
      batch is a single one. */
  lemma {:induction false} WholeBatchesRoundDown(f: nat, batch: int)
    ensures batch > 0 ==> exists q: nat :: WholeBatches(f, batch) == q * batch
    ensures batch > 0 ==> WholeBatches(f, batch) <= f < WholeBatches(f, batch) + batch
    ensures batch <= 0 ==> WholeBatches(f, batch) == 0
  {
    if 0 < batch <= f {
      WholeBatchesRoundDown(f - batch, batch);
      var q: nat :| WholeBatches(f - batch, batch) == q * batch;
      assert (q + 1) * batch == q * batch + batch;
    } else if batch > 0 {
      assert 0 * batch == 0;
    }
  }

  /** How far one turn gets. */
  lemma TurnReaches(n: nat, first: nat, batch: int, dryRun: bool, limit: Option<int>)
    requires first <= UpTo(limit, n) && (batch == 0 ==> first == 0)
    requires dryRun ==> first == 0 || first == GoalOf(n, batch, true, limit)
    ensures var width := if dryRun && first > 0 then 0 else Width(n - first, batch);
            var next := UpTo(limit, first + width);
            && first <= next <= UpTo(limit, n) <= n && first + width <= n
            && (limit.Some? && first >= limit.value ==> first == next == GoalOf(n, batch, dryRun, limit))
            && (width == 0 ==> first == next == GoalOf(n, batch, dryRun, limit))
            && (width > 0 && !(limit.Some? && first >= limit.value) ==> first < next && batch != 0)
            && (width > 0 && dryRun ==> next == GoalOf(n, batch, true, limit))
  {
  }

  function IdsOf(rows: Table, n: nat): set<int>
    requires n <= |rows|
  {
    set i | 0 <= i < n :: rows[i].id
  }

  lemma IdsOfNext(rows: Table, n: nat)
    requires n < |rows|
    ensures IdsOf(rows, n + 1) == IdsOf(rows, n) + {rows[n].id}
  {
  }

  // -------------------------------------------------------------------------
  // What the loop relies on
  // -------------------------------------------------------------------------

  lemma {:induction false} NullRowsMembers(t: Table)
    ensures forall r :: r in NullRows(t) ==> r in t && r.classification == None
  {
    if t != [] {
      NullRowsMembers(t[1..]);
    }
  }

  lemma {:induction false} NullRowsDistinct(t: Table)
    requires DistinctIds(t)
    ensures DistinctIds(NullRows(t))
  {
    if t != [] {
      TailIsDistinct(t);
      NullRowsDistinct(t[1..]);
      NullRowsMembers(t[1..]);
    }
  }

  lemma TailIsDistinct(t: Table)
    requires DistinctIds(t) && t != []
    ensures DistinctIds(t[1..]) && forall r :: r in t[1..] ==> r.id != t[0].id
  {
    assert forall i :: 0 <= i < |t[1..]| ==> t[1..][i] == t[i + 1];
  }

  lemma {:induction false} DrainedNone(env: Env, t: Table)
    ensures Drained(env, t, 0) == t
  {
    if t != [] {
      DrainedNone(env, t[1..]);
    }
  }

  lemma NullRowsOfCons(head: Row, t: Table)
    ensures NullRows([head] + t) == (if head.classification == None then [head] else []) + NullRows(t)
  {
    assert ([head] + t)[1..] == t;
  }

  lemma {:induction false} DrainedNulls(env: Env, t: Table, n: nat)
    requires n <= |NullRows(t)|
    ensures NullRows(Drained(env, t, n)) == NullRows(t)[n..]
  {
    if n == 0 {
      DrainedNone(env, t);
    } else if t[0].classification == None {
      DrainedNulls(env, t[1..], n - 1);
      NullRowsOfCons(Classified(env, t[0]), Drained(env, t[1..], n - 1));
    } else {
      DrainedNulls(env, t[1..], n);
      NullRowsOfCons(t[0], Drained(env, t[1..], n));
    }
  }

  lemma {:induction false} UpdateOfAbsent(t: Table, row: Row)
    requires forall r :: r in t ==> r.id != row.id
    ensures Update(t, row) == t
  {
    if t != [] {
      UpdateOfAbsent(t[1..], row);
    }
  }

  /** Classifying the next NULL row is one UPDATE by id. */
  lemma {:induction false} DrainedNext(env: Env, t: Table, n: nat)
    requires DistinctIds(t) && n < |NullRows(t)|
    ensures Update(Drained(env, t, n), Classified(env, NullRows(t)[n])) == Drained(env, t, n + 1)
  {
    var row := NullRows(t)[n];
    hide Classified;
    if t[0].classification == None && n == 0 {
      TailIsDistinct(t);
      DrainedNone(env, t[1..]);
      ClassifiedKeepsId(env, row);
      UpdateOfAbsent(t[1..], Classified(env, row));
    } else {
      var m := if t[0].classification == None then n - 1 else n;
      NullRowsTail(t, n);
      ClassifiedKeepsId(env, row);
      ClassifiedKeepsId(env, t[0]);
      DrainedNext(env, t[1..], m);
      var head := if t[0].classification == None then Classified(env, t[0]) else t[0];
      UpdateOfTail(head, Drained(env, t[1..], m), Classified(env, row));
    }
  }

  lemma NullRowsTail(t: Table, n: nat)
    requires DistinctIds(t) && n < |NullRows(t)| && (t[0].classification != None || n > 0)
    ensures var m := if t[0].classification == None then n - 1 else n;
            && m < |NullRows(t[1..])| && NullRows(t)[n] == NullRows(t[1..])[m]
            && NullRows(t)[n].id != t[0].id && DistinctIds(t[1..])
  {
    TailIsDistinct(t);
    NullRowsMembers(t[1..]);
    var m := if t[0].classification == None then n - 1 else n;
    assert NullRows(t[1..])[m] in t[1..];
  }

  lemma ClassifiedKeepsId(env: Env, row: Row)
    ensures Classified(env, row).id == row.id && Classified(env, row).classification.Some?
  {
  }

  lemma UpdateOfTail(head: Row, t: Table, row: Row)
    requires head.id != row.id
    ensures Update([head] + t, row) == [head] + Update(t, row)
  {
    assert ([head] + t)[1..] == t;
  }

  lemma {:induction false} NotSeenOfFresh(rows: Table, seen: set<int>)
    requires forall r :: r in rows ==> r.id !in seen
    ensures NotSeen(rows, seen) == rows
  {
    if rows != [] {
      NotSeenOfFresh(rows[1..], seen);
    }
  }

  lemma {:induction false} NotSeenOfSeen(rows: Table, seen: set<int>)
    requires forall r :: r in rows ==> r.id in seen
    ensures NotSeen(rows, seen) == []
  {
    if rows != [] {
      NotSeenOfSeen(rows[1..], seen);
    }
  }

  /** A dry run selects its first batch over and over. */
  lemma PageOfNulls(nulls: Table, rows: Table, batch: int, dryRun: bool, limit: Option<int>, first: nat)
    requires first <= |nulls| && rows == Limited(if dryRun then nulls else nulls[first..], batch)
    requires !(limit.Some? && first >= limit.value)
    requires dryRun ==> first == 0 || first == GoalOf(|nulls|, batch, true, limit)
    ensures dryRun && first > 0 ==> |rows| <= first
  {
  }

  /** The rows a batch takes on: the next ones in a writing run; in a dry run the first batch, and
      then nothing any more. */
  lemma SelectsNextRows(nulls: Table, rows: Table, newRows: Table, seen: set<int>, processed: nat,
                        batch: int, dryRun: bool)
    requires processed <= |nulls| && DistinctIds(nulls)
    requires seen == IdsOf(nulls, processed)
    requires rows == Limited(if dryRun then nulls else nulls[processed..], batch)
    requires newRows == NotSeen(rows, seen)
    requires dryRun && processed > 0 ==> |rows| <= processed
    ensures newRows == if dryRun && processed > 0 then [] else rows
    ensures newRows != [] ==>
              && processed + |newRows| <= |nulls|
              && newRows == nulls[processed..processed + |newRows|]
              && batch != 0
    ensures |newRows| == if dryRun && processed > 0 then 0 else Width(|nulls| - processed, batch)
  {
    if dryRun && processed > 0 {
      forall r | r in rows
        ensures r.id in seen
      {
        var i :| 0 <= i < |rows| && rows[i] == r;
        assert rows[i] == nulls[i];
      }
      NotSeenOfSeen(rows, seen);
    } else {
      forall r | r in rows
        ensures r.id !in seen
      {
        var i :| 0 <= i < |rows| && rows[i] == r;
        assert rows[i] == nulls[processed + i];
      }
      NotSeenOfFresh(rows, seen);
    }
  }

  // -------------------------------------------------------------------------
  // What the backfill promises
  // -------------------------------------------------------------------------

  /** The reference: every NULL row classified where it stands, in one pass. */
  function MapNulls(env: Env, t: Table): Table {
    seq(|t|, i requires 0 <= i < |t| => if t[i].classification == None then Classified(env, t[i]) else t[i])
  }

  /** A full run is the one-pass map, for every batch size. */
  lemma {:induction false} FullRunIsTheMap(env: Env, t: Table, n: nat)
    requires n >= |NullRows(t)|
    ensures Drained(env, t, n) == MapNulls(env, t)
  {
    if t != [] {
      hide Classified;
      FullRunIsTheMap(env, t[1..], if t[0].classification == None then n - 1 else n);
      assert MapNulls(env, t)[1..] == MapNulls(env, t[1..]);
      assert MapNulls(env, t) == [MapNulls(env, t)[0]] + MapNulls(env, t[1..]);
    }
  }

  /** Row by row: a full run leaves classified rows alone; a pending one gets the network signals the
      lookup gives when it has an address and neither signal, and the verdict the classifier gives on
      the very reverse DNS, organisation, ASN and agent that now stand in the row. */
  lemma RowsHoldWhatTheyAreClassifiedBy(env: Env, t: Table, i: nat)
    requires i < |t|
    ensures var row, after := t[i], MapNulls(env, t)[i];
            && after.id == row.id && after.ip == row.ip && after.dns == row.dns && after.agent == row.agent
            && (row.classification.Some? ==> after == row)
            && (row.classification.None? ==>
                  && after.classification == Some(env.classify(after.dns, after.org, after.asn, after.agent).0)
                  && after.source == env.classify(after.dns, after.org, after.asn, after.agent).1)
            && (row.classification.None? && row.ip != "" && row.asn == "" && row.org == "" ==>
                  after.asn == env.lookup(row.ip).0 && after.org == env.lookup(row.ip).1)
            && (row.ip == "" || row.asn != "" || row.org != "" ==> after.asn == row.asn && after.org == row.org)
  {
    assert MapNulls(env, t)[i] == if t[i].classification == None then Classified(env, t[i]) else t[i];
  }

  /** Two runs compose: what the first left over, the second takes on. */
  lemma {:induction false} RunsCompose(env: Env, t: Table, a: nat, b: nat)
    ensures Drained(env, Drained(env, t, a), b) == Drained(env, t, a + b)
  {
    if t != [] {
      hide Classified;
      if t[0].classification == None && a > 0 {
        ClassifiedKeepsId(env, t[0]);
        DrainedOfClassified(env, Classified(env, t[0]), Drained(env, t[1..], a - 1), b);
        RunsCompose(env, t[1..], a - 1, b);
      } else if a == 0 {
        DrainedNone(env, t);
      } else {
        DrainedOfClassified(env, t[0], Drained(env, t[1..], a), b);
        RunsCompose(env, t[1..], a, b);
      }
    }
  }

  lemma DrainedOfClassified(env: Env, head: Row, t: Table, n: nat)
    requires head.classification != None
    ensures Drained(env, [head] + t, n) == [head] + Drained(env, t, n)
  {
    assert ([head] + t)[1..] == t;
  }

  /** Any cut or interrupted run followed by a full one gives the table of one full run, and a
      further run changes nothing. */
  lemma ResumedRunIsAFullRun(env: Env, t: Table, cut: nat, again: nat)
    ensures var rest := |NullRows(Drained(env, t, cut))|;
            Drained(env, Drained(env, t, cut), rest) == MapNulls(env, t)
    ensures NullRows(MapNulls(env, t)) == [] && Drained(env, MapNulls(env, t), again) == MapNulls(env, t)
  {
    hide NullRows, Drained, MapNulls;
    var total := |NullRows(t)|;
    var n := if cut < total then cut else total;
    FullRunIsTheMap(env, t, total);
    if cut >= total {
      FullRunIsTheMap(env, t, cut);
    }
    DrainedNulls(env, t, n);
    RunsCompose(env, t, n, total - n);
    DrainedNulls(env, t, total);
    RunsCompose(env, t, total, again);
    FullRunIsTheMap(env, t, total + again);
  }

  /** A dry run reports on all pending rows exactly when they fit in the first batch: rows already
      seen are selected again, and the loop stops there. */
  lemma DryRunCountsAllIff(t: Table, batch: int)
    requires NullRows(t) != []
    ensures Goal(t, batch, true, None) == |NullRows(t)| <==> batch < 0 || |NullRows(t)| <= batch
  {
  }
}

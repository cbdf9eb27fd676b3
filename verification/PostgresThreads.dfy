/** Report threads that share one PostgreSQLStorage (manyfaced/db/storage.py): the statements run
    under the lock, but checking, resetting and opening the shared connection do not. One record a
    call, all of different keys; each step is one use of the shared state. */
module PostgresThreads {
  import opened Wrappers
  import PostgresStore
  import Records

  /** Where a call stands. `second` marks the retry. */
  datatype Pc =
    | Start
    | Ensuring(second: bool)
    | Probing(second: bool)
    | Opening(second: bool)
    | Creating(second: bool)
    | Opened(second: bool)
    | Locking(second: bool)
    | Executing(second: bool)
    | Committing(second: bool)
    | Resetting
    | Dumping
    | Done
    | Raised

  /** `conn` is the shared attribute; connections are numbered as they are opened. Whoever closes a
      connection also takes it out of the attribute. A pair (c, t) in `pending` is a row executed on
      connection c and not yet committed. */
  datatype State = State(
    conn: Option<nat>, opens: nat, pending: set<(nat, nat)>,
    holder: Option<nat>, pcs: map<nat, Pc>, committed: set<nat>, dumped: set<nat>)

  function At(s: State, t: nat): Pc {
    if t in s.pcs then s.pcs[t] else Start
  }

  function Go(s: State, t: nat, pc: Pc): State {
    s.(pcs := s.pcs[t := pc])
  }

  function Release(s: State): State {
    s.(holder := None)
  }

  /** A step of thread `t`. `fails` is an error of the driver; a commit that fails may have been
      `applied` all the same. Using a connection that is gone raises AttributeError, which no
      handler of the call catches. */
  datatype Turn = Turn(thread: nat, fails: bool, applied: bool)

  /** `_ensure_connected`, from the check to the answer. */
  function EnsureStep(s: State, t: nat, pc: Pc, fails: bool): State {
    match pc
    case Ensuring(second) => Go(s, t, if s.conn == None then Opening(second) else Probing(second))
    case Probing(second) =>
      if s.conn == None then Go(s, t, Raised)
      else if fails then
        Go(s.(conn := None, pending := Without(s.pending, s.conn.value)), t, Opening(second))
      else Go(s, t, Locking(second))
    case Opening(second) =>
      if fails then Go(s.(conn := None), t, Dumping)
      else Go(s.(conn := Some(s.opens), opens := s.opens + 1), t, Creating(second))
    case Creating(second) =>
      if s.conn == None then Go(s, t, Raised)
      else if fails then Go(s.(conn := None), t, Dumping)
      else Go(s.(committed := s.committed + On(s.pending, s.conn.value)), t, Opened(second))
    case Opened(second) => Go(s, t, if s.conn == None then Dumping else Locking(second))
    case _ => s
  }

  /** The two statements under the lock. */
  function StatementStep(s: State, t: nat, pc: Pc, fails: bool, applied: bool): State {
    match pc
    case Locking(second) => if s.holder == None then Go(s.(holder := Some(t)), t, Executing(second)) else s
    case Executing(second) =>
      if s.conn == None then Go(Release(s), t, Raised)
      else if fails then Go(Release(s), t, if second then Dumping else Resetting)
      else Go(s.(pending := s.pending + {(s.conn.value, t)}), t, Committing(second))
    case Committing(second) =>
      if s.conn == None then Go(Release(s), t, Raised)
      else
        var stored := s.committed + On(s.pending, s.conn.value);
        if fails then
          Go(Release(if applied then s.(committed := stored) else s),
             t, if second then Dumping else Resetting)
        else Go(Release(s.(committed := stored)), t, Done)
    case _ => s
  }

  function Step(s: State, turn: Turn): State {
    var t, pc := turn.thread, At(s, turn.thread);
    match pc
    case Start => Go(s, t, if s.conn == None then Ensuring(false) else Locking(false))
    case Resetting =>
      if s.conn == None then Go(s, t, Ensuring(true))
      else
        Go(s.(conn := None, pending := Without(s.pending, s.conn.value)), t, Ensuring(true))
    case Dumping => Go(s.(dumped := s.dumped + {t}), t, Done)
    case Done => s
    case Raised => s
    case Locking(_) => StatementStep(s, t, pc, turn.fails, turn.applied)
    case Executing(_) => StatementStep(s, t, pc, turn.fails, turn.applied)
    case Committing(_) => StatementStep(s, t, pc, turn.fails, turn.applied)
    case _ => EnsureStep(s, t, pc, turn.fails)
  }

  /** The rows executed on one connection. */
  function On(pending: set<(nat, nat)>, c: nat): set<nat> {
    set p | p in pending && p.0 == c :: p.1
  }

  function Without(pending: set<(nat, nat)>, c: nat): set<(nat, nat)> {
    set p | p in pending && p.0 != c
  }

  function Run(s: State, schedule: seq<Turn>): State
    decreases schedule
  {
    if schedule == [] then s else Run(Step(s, schedule[0]), schedule[1..])
  }

  function Initial(connected: bool): State {
    State(if connected then Some(0) else None, if connected then 1 else 0, {}, None, map[], {}, {})
  }

  /** A call is over and its record is neither in the table nor in the dump. */
  predicate Lost(s: State, t: nat) {
    (At(s, t).Done? || At(s, t).Raised?) && t !in s.committed && t !in s.dumped
  }

  /** `n` concurrent calls, with or without driver errors. */
  predicate Allowed(schedule: seq<Turn>, n: nat, mayFail: bool) {
    forall turn :: turn in schedule ==> turn.thread < n && (turn.fails ==> mayFail)
  }

  ghost predicate NothingIsLost(n: nat, connected: bool, mayFail: bool) {
    forall schedule, t :: Allowed(schedule, n, mayFail) ==> !Lost(Run(Initial(connected), schedule), t)
  }

  // -------------------------------------------------------------------------
  // Connected and without errors
  // -------------------------------------------------------------------------

  /** Nobody leaves the straight path, and the connection stays the same. */
  ghost predicate Smooth(s: State) {
    && s.conn == Some(0)
    && forall t: nat {:trigger At(s, t)} ::
         match At(s, t)
         case Start => true
         case Locking(second) => !second
         case Executing(second) => !second
         case Committing(second) => !second && (0, t) in s.pending
         case Done => t in s.committed
         case _ => false
  }

  lemma SmoothStep(s: State, turn: Turn)
    requires Smooth(s) && !turn.fails
    ensures Smooth(Step(s, turn))
  {
    var after := Step(s, turn);
    var t := turn.thread;
    assert At(s, t) == At(s, t);
    assert (0, t) in s.pending ==> t in On(s.pending, 0);
    forall u: nat
      ensures u != t ==> At(after, u) == At(s, u)
    {
    }
  }

  lemma {:induction false} SmoothRun(s: State, schedule: seq<Turn>, n: nat)
    requires Smooth(s) && Allowed(schedule, n, false)
    ensures Smooth(Run(s, schedule))
    decreases schedule
  {
    hide Smooth, Step;
    if schedule != [] {
      assert schedule[0] in schedule;
      SmoothStep(s, schedule[0]);
      SmoothRun(Step(s, schedule[0]), schedule[1..], n);
    }
  }

  // -------------------------------------------------------------------------
  // One call at a time
  // -------------------------------------------------------------------------

  /** With only one call about, whoever needs the connection has it, open. */
  ghost predicate Alone(s: State) {
    && (forall t: nat {:trigger At(s, t)} :: t != 0 ==> At(s, t) == Start)
    && match At(s, 0)
       case Probing(_) => s.conn != None
       case Creating(_) => s.conn != None
       case Opened(_) => s.conn != None
       case Locking(_) => s.conn != None
       case Executing(_) => s.conn != None
       case Committing(_) => s.conn != None && (s.conn.value, 0) in s.pending
       case Done => 0 in s.committed || 0 in s.dumped
       case Raised => false
       case _ => true
  }

  lemma AloneStep(s: State, turn: Turn)
    requires Alone(s) && turn.thread == 0
    ensures Alone(Step(s, turn))
  {
    var after := Step(s, turn);
    assert s.conn != None && (s.conn.value, 0) in s.pending ==> 0 in On(s.pending, s.conn.value);
    forall u: nat | u != 0
      ensures At(after, u) == Start
    {
      assert At(s, u) == Start;
    }
  }

  lemma {:induction false} AloneRun(s: State, schedule: seq<Turn>, n: nat, mayFail: bool)
    requires Alone(s) && Allowed(schedule, n, mayFail) && n <= 1
    ensures Alone(Run(s, schedule))
    decreases schedule
  {
    hide Alone, Step;
    if schedule != [] {
      assert schedule[0] in schedule;
      AloneStep(s, schedule[0]);
      AloneRun(Step(s, schedule[0]), schedule[1..], n, mayFail);
    }
  }

  // -------------------------------------------------------------------------
  // Two ways to lose a record
  // -------------------------------------------------------------------------

  ghost predicate Reaches(n: nat, connected: bool, mayFail: bool, s: State) {
    exists schedule :: Allowed(schedule, n, mayFail) && Run(Initial(connected), schedule) == s
  }

  lemma {:induction false} RunOneMore(s: State, schedule: seq<Turn>, turn: Turn)
    ensures Run(s, schedule + [turn]) == Step(Run(s, schedule), turn)
    decreases schedule
  {
    hide Step;
    if schedule == [] {
      assert [] + [turn] == [turn] && [turn][1..] == [];
    } else {
      assert (schedule + [turn])[1..] == schedule[1..] + [turn];
      RunOneMore(Step(s, schedule[0]), schedule[1..], turn);
    }
  }

  /** One more step of a run under way. */
  lemma Next(n: nat, connected: bool, mayFail: bool, s: State, t: nat, fails: bool) returns (next: State)
    requires Reaches(n, connected, mayFail, s) && t < n && (fails ==> mayFail)
    ensures next == Step(s, Turn(t, fails, false)) && Reaches(n, connected, mayFail, next)
  {
    hide Step, Run;
    var turn := Turn(t, fails, false);
    next := Step(s, turn);
    var schedule :| Allowed(schedule, n, mayFail) && Run(Initial(connected), schedule) == s;
    RunOneMore(Initial(connected), schedule, turn);
    assert Allowed(schedule + [turn], n, mayFail);
  }

  lemma AtTheStart(n: nat, connected: bool, mayFail: bool)
    ensures Reaches(n, connected, mayFail, Initial(connected))
  {
    assert Allowed([], n, mayFail) && Run(Initial(connected), []) == Initial(connected);
  }

  /** Two calls find no connection and both open one. The first executes on its own and commits on
      the other's: it returns as if all were well. */
  lemma RacingConnectsLose(n: nat, mayFail: bool)
    requires n >= 2
    ensures !NothingIsLost(n, false, mayFail)
  {
    hide Reaches, Run, Initial, Allowed;
    var s := RacingConnects(n, mayFail);
    LostRun(n, false, mayFail, s, 0);
  }

  lemma LostRun(n: nat, connected: bool, mayFail: bool, s: State, t: nat)
    requires Reaches(n, connected, mayFail, s) && Lost(s, t)
    ensures !NothingIsLost(n, connected, mayFail)
  {
    hide Run, Lost, Allowed;
    var schedule :| Allowed(schedule, n, mayFail) && Run(Initial(connected), schedule) == s;
    assert Lost(Run(Initial(connected), schedule), t);
  }

  lemma RacingConnects(n: nat, mayFail: bool) returns (s: State)
    requires n >= 2
    ensures Reaches(n, false, mayFail, s) && Lost(s, 0)
  {
    hide Reaches, Run;
    s := FirstHasExecuted(n, mayFail);
    s := Next(n, false, mayFail, s, 1, false);
    assert s.conn == Some(1) && On(s.pending, 1) == {} && At(s, 0) == Committing(false);
    s := Next(n, false, mayFail, s, 0, false);
  }

  lemma FirstHasExecuted(n: nat, mayFail: bool) returns (s: State)
    requires n >= 2
    ensures Reaches(n, false, mayFail, s)
    ensures At(s, 0) == Committing(false) && At(s, 1) == Opening(false)
    ensures s.opens == 1 && s.pending == {(0, 0)} && s.committed == {} && s.dumped == {}
  {
    hide Reaches, Run;
    s := FirstIsConnected(n, mayFail);
    s := Next(n, false, mayFail, s, 0, false);
    assert At(s, 0) == Executing(false) && At(s, 1) == Opening(false);
    s := Next(n, false, mayFail, s, 0, false);
  }

  lemma FirstIsConnected(n: nat, mayFail: bool) returns (s: State)
    requires n >= 2
    ensures Reaches(n, false, mayFail, s)
    ensures At(s, 0) == Locking(false) && At(s, 1) == Opening(false) && s.holder == None && s.conn == Some(0)
    ensures s.opens == 1 && s.pending == {} && s.committed == {} && s.dumped == {}
  {
    hide Reaches, Run;
    s := BothOpening(n, mayFail);
    s := Next(n, false, mayFail, s, 0, false);
    assert At(s, 0) == Creating(false) && At(s, 1) == Opening(false);
    s := Next(n, false, mayFail, s, 0, false);
    assert At(s, 0) == Opened(false) && At(s, 1) == Opening(false) && s.committed == {};
    s := Next(n, false, mayFail, s, 0, false);
  }

  lemma BothOpening(n: nat, mayFail: bool) returns (s: State)
    requires n >= 2
    ensures Reaches(n, false, mayFail, s)
    ensures s == Initial(false).(pcs := s.pcs) && At(s, 0) == Opening(false) && At(s, 1) == Opening(false)
  {
    hide Reaches, Run;
    AtTheStart(n, false, mayFail);
    s := Next(n, false, mayFail, Initial(false), 0, false);
    s := Next(n, false, mayFail, s, 1, false);
    assert At(s, 0) == Ensuring(false) && At(s, 1) == Ensuring(false);
    s := Next(n, false, mayFail, s, 0, false);
    s := Next(n, false, mayFail, s, 1, false);
  }

  /** A call whose statement failed resets the shared connection while another is between execute
      and commit: that one meets no connection and raises. */
  lemma ResetLoses(n: nat)
    requires n >= 2
    ensures !NothingIsLost(n, true, true)
  {
    hide Reaches, Run, Allowed;
    AtTheStart(n, true, true);
    var s := Next(n, true, true, Initial(true), 1, false);
    s := Next(n, true, true, s, 1, false);
    assert At(s, 1) == Executing(false);
    s := Next(n, true, true, s, 1, true);
    assert At(s, 1) == Resetting && s.holder == None;
    s := Next(n, true, true, s, 0, false);
    s := Next(n, true, true, s, 0, false);
    s := Next(n, true, true, s, 0, false);
    assert At(s, 0) == Committing(false) && s.conn == Some(0) && s.committed == {} && s.dumped == {};
    s := Next(n, true, true, s, 1, false);
    assert s.conn == None && At(s, 0) == Committing(false);
    s := Next(n, true, true, s, 0, false);
    LostRun(n, true, true, s, 0);
  }

  /** In every interleaving every record ends up in the table or in the dump if and only if there is
      one call at a time, or the connection is there from the start and the driver never fails. */
  lemma NothingIsLostIff(n: nat, connected: bool, mayFail: bool)
    ensures NothingIsLost(n, connected, mayFail) <==> n <= 1 || (connected && !mayFail)
  {
    hide Run, Step, Allowed;
    if n <= 1 {
      assert Alone(Initial(connected));
      forall schedule, t | Allowed(schedule, n, mayFail)
        ensures !Lost(Run(Initial(connected), schedule), t)
      {
        AloneRun(Initial(connected), schedule, n, mayFail);
        assert t == 0 || At(Run(Initial(connected), schedule), t) == Start;
      }
    } else if connected && !mayFail {
      assert Smooth(Initial(connected));
      forall schedule, t | Allowed(schedule, n, mayFail)
        ensures !Lost(Run(Initial(connected), schedule), t)
      {
        SmoothRun(Initial(connected), schedule, n);
        assert !At(Run(Initial(connected), schedule), t).Raised?;
      }
    } else if connected {
      ResetLoses(n);
    } else {
      RacingConnectsLose(n, mayFail);
    }
  }

  // -------------------------------------------------------------------------
  // A call that is left alone
  // -------------------------------------------------------------------------

  /** How the operations of `_ensure_connected` turn out: the probe, opening and the table setup. */
  datatype Ensured = Ensured(probeFails: bool, openFails: bool, createFails: bool)

  /** How one statement turns out; a commit that fails may be applied all the same. */
  datatype Sent = Sent(executeFails: bool, commitFails: bool, applied: bool)

  function Ok(t: nat): Turn {
    Turn(t, false, false)
  }

  /** No row is pending on a connection that is still to be opened. */
  predicate Numbered(s: State) {
    && (forall p :: p in s.pending ==> p.0 < s.opens)
    && (s.conn.Some? ==> s.conn.value < s.opens)
  }

  lemma RunCons(s: State, turn: Turn, rest: seq<Turn>)
    ensures Run(s, [turn] + rest) == Run(Step(s, turn), rest)
  {
    hide Step;
    assert ([turn] + rest)[1..] == rest;
  }

  lemma RunNone(s: State)
    ensures Run(s, []) == s
  {
  }

  /** The turns `_ensure_connected` takes when it has to open a connection. */
  function OpenTurns(t: nat, e: Ensured): seq<Turn> {
    [Turn(t, e.openFails, false)] +
    if e.openFails then [] else [Turn(t, e.createFails, false)] + if e.createFails then [] else [Ok(t)] + []
  }

  function EnsureTurns(s: State, t: nat, e: Ensured): seq<Turn> {
    [Ok(t)] +
    if s.conn == None then OpenTurns(t, e)
    else [Turn(t, e.probeFails, false)] + if e.probeFails then OpenTurns(t, e) else []
  }

  lemma OpensAlone(s: State, t: nat, second: bool, e: Ensured)
    requires At(s, t) == Opening(second) && Numbered(s) && s.conn == None
    ensures var after, ok := Run(s, OpenTurns(t, e)), !e.openFails && !e.createFails;
            && At(after, t) == (if ok then Locking(second) else Dumping)
            && after == s.(conn := if ok then Some(s.opens) else None,
                           opens := if e.openFails then s.opens else s.opens + 1, pcs := after.pcs)
            && Numbered(after)
  {
    hide Run;
    var s1 := Step(s, Turn(t, e.openFails, false));
    if e.openFails {
      RunCons(s, Turn(t, true, false), []);
      RunNone(s1);
    } else {
      RunCons(s, Turn(t, false, false), [Turn(t, e.createFails, false)] + if e.createFails then [] else [Ok(t)] + []);
      var s2 := Step(s1, Turn(t, e.createFails, false));
      assert On(s1.pending, s.opens) == {};
      RunCons(s1, Turn(t, e.createFails, false), if e.createFails then [] else [Ok(t)] + []);
      if e.createFails {
        RunNone(s2);
      } else {
        RunCons(s2, Ok(t), []);
        RunNone(Step(s2, Ok(t)));
      }
    }
  }

  /** `_ensure_connected`, exactly: a connection that answers the probe is kept; otherwise it is
      dropped with what was pending on it, and a new one is opened and set up, or there is none. */
  lemma EnsuresAlone(s: State, t: nat, second: bool, e: Ensured)
    requires At(s, t) == Ensuring(second) && Numbered(s)
    ensures var kept := s.conn.Some? && !e.probeFails;
            var after, ok := Run(s, EnsureTurns(s, t, e)), kept || (!e.openFails && !e.createFails);
            && At(after, t) == (if ok then Locking(second) else Dumping)
            && after == s.(conn := if kept then s.conn else if ok then Some(s.opens) else None,
                           opens := if kept || e.openFails then s.opens else s.opens + 1,
                           pending := if s.conn.Some? && e.probeFails
                                      then set p | p in s.pending && p.0 != s.conn.value else s.pending,
                           pcs := after.pcs)
            && Numbered(after)
  {
    hide Run, OpenTurns;
    var s1 := Step(s, Ok(t));
    if s.conn == None {
      RunCons(s, Ok(t), OpenTurns(t, e));
      OpensAlone(s1, t, second, e);
    } else {
      var probe := Turn(t, e.probeFails, false);
      var rest := if e.probeFails then OpenTurns(t, e) else [];
      RunCons(s, Ok(t), [probe] + rest);
      RunCons(s1, probe, rest);
      if e.probeFails {
        OpensAlone(Step(s1, probe), t, second, e);
      } else {
        RunNone(Step(s1, probe));
      }
    }
  }

  function StatementTurns(t: nat, st: Sent): seq<Turn> {
    [Ok(t)] + ([Turn(t, st.executeFails, false)] +
               if st.executeFails then [] else [Turn(t, st.commitFails, st.applied)] + [])
  }

  predicate Succeeds(st: Sent) {
    !st.executeFails && !st.commitFails
  }

  predicate IsApplied(st: Sent) {
    !st.executeFails && (!st.commitFails || st.applied)
  }

  lemma TakesLock(s: State, t: nat, second: bool)
    requires At(s, t) == Locking(second) && s.holder == None
    ensures Step(s, Ok(t)) == s.(holder := Some(t), pcs := s.pcs[t := Executing(second)])
  {
  }

  lemma Executes(s: State, t: nat, second: bool, fails: bool)
    requires At(s, t) == Executing(second) && s.conn.Some?
    ensures Step(s, Turn(t, fails, false)) ==
            if fails then s.(holder := None, pcs := s.pcs[t := if second then Dumping else Resetting])
            else s.(pending := s.pending + {(s.conn.value, t)}, pcs := s.pcs[t := Committing(second)])
  {
  }

  lemma Commits(s: State, t: nat, second: bool, st: Sent)
    requires At(s, t) == Committing(second) && s.conn.Some? && !st.executeFails
    ensures Step(s, Turn(t, st.commitFails, st.applied)) ==
            s.(holder := None,
               committed := if IsApplied(st) then s.committed + On(s.pending, s.conn.value) else s.committed,
               pcs := s.pcs[t := if Succeeds(st) then Done else if second then Dumping else Resetting])
  {
  }

  /** A statement under the lock, exactly: what it commits is its own row and whatever is pending on
      the same connection, and the lock is free again. */
  lemma StatementAlone(s: State, t: nat, second: bool, st: Sent)
    requires At(s, t) == Locking(second) && s.holder == None && s.conn.Some? && Numbered(s)
    ensures var after, c := Run(s, StatementTurns(t, st)), s.conn.value;
            && At(after, t) == (if Succeeds(st) then Done else if second then Dumping else Resetting)
            && after == s.(pending := if st.executeFails then s.pending else s.pending + {(c, t)},
                           committed := if IsApplied(st) then s.committed + On(s.pending, c) + {t} else s.committed,
                           pcs := after.pcs)
            && Numbered(after)
  {
    hide Run, Step;
    var execute, commit := Turn(t, st.executeFails, false), Turn(t, st.commitFails, st.applied);
    TakesLock(s, t, second);
    var s1 := Step(s, Ok(t));
    Executes(s1, t, second, st.executeFails);
    var s2 := Step(s1, execute);
    RunCons(s, Ok(t), [execute] + if st.executeFails then [] else [commit] + []);
    RunCons(s1, execute, if st.executeFails then [] else [commit] + []);
    if st.executeFails {
      RunNone(s2);
    } else {
      Commits(s2, t, second, st);
      RunCons(s2, commit, []);
      RunNone(Step(s2, commit));
      assert On(s2.pending, s.conn.value) == On(s.pending, s.conn.value) + {t};
    }
  }

  lemma {:induction false} RunBoth(s: State, a: seq<Turn>, b: seq<Turn>)
    ensures Run(s, a + b) == Run(Run(s, a), b)
    decreases a
  {
    hide Step;
    if a == [] {
      assert [] + b == b;
    } else {
      assert (a + b)[1..] == a[1..] + b;
      RunBoth(Step(s, a[0]), a[1..], b);
    }
  }

  /** How a call fares when it is left alone: the operations that open a connection, where it has to,
      and its statements. */
  datatype Fate = Fate(connect: Ensured, first: Sent, reconnect: Ensured, second: Sent)

  predicate Opens(e: Ensured) {
    !e.openFails && !e.createFails
  }

  /** The retry: reset, reconnect, the statement again, and the dump when it comes to that. */
  function RetryTurns(t: nat, f: Fate): seq<Turn> {
    [Ok(t)] + (([Ok(t)] + OpenTurns(t, f.reconnect)) +
               if !Opens(f.reconnect) then [Ok(t)] + []
               else StatementTurns(t, f.second) + if Succeeds(f.second) then [] else [Ok(t)] + [])
  }

  /** From the lock on. */
  function SendTurns(t: nat, f: Fate): seq<Turn> {
    StatementTurns(t, f.first) + if Succeeds(f.first) then [] else RetryTurns(t, f)
  }

  function CallTurns(s: State, t: nat, f: Fate): seq<Turn> {
    [Ok(t)] +
    if s.conn.Some? then SendTurns(t, f)
    else ([Ok(t)] + OpenTurns(t, f.connect)) + if Opens(f.connect) then SendTurns(t, f) else [Ok(t)] + []
  }

  /** The call is over: it holds no lock, and only its own record has moved. */
  predicate Ended(before: State, after: State, t: nat, stored: bool, dumped: bool, connected: bool) {
    && At(after, t) == Done && after.holder == None && Numbered(after) && after.conn.Some? == connected
    && (t in after.committed <==> stored)
    && after.dumped == if dumped then before.dumped + {t} else before.dumped
  }

  lemma DumpsAlone(s: State, t: nat)
    requires At(s, t) == Dumping
    ensures Run(s, [Ok(t)] + []) == s.(pcs := s.pcs[t := Done], dumped := s.dumped + {t})
  {
    hide Run;
    RunCons(s, Ok(t), []);
    RunNone(Step(s, Ok(t)));
  }

  lemma RetryAlone(s: State, t: nat, f: Fate)
    requires At(s, t) == Resetting && Numbered(s) && s.holder == None && s.conn.Some?
    requires forall p :: p in s.pending && p.0 != s.conn.value ==> p.1 != t
    ensures Ended(s, Run(s, RetryTurns(t, f)), t, t in s.committed || (Opens(f.reconnect) && IsApplied(f.second)),
                  !Opens(f.reconnect) || !Succeeds(f.second), Opens(f.reconnect))
  {
    hide Run, OpenTurns, StatementTurns;
    var s1 := Step(s, Ok(t));
    var open := [Ok(t)] + OpenTurns(t, f.reconnect);
    var rest := if !Opens(f.reconnect) then [Ok(t)] + []
                else StatementTurns(t, f.second) + if Succeeds(f.second) then [] else [Ok(t)] + [];
    RunCons(s, Ok(t), open + rest);
    RunBoth(s1, open, rest);
    assert s1.conn == None && EnsureTurns(s1, t, f.reconnect) == open;
    EnsuresAlone(s1, t, true, f.reconnect);
    var s2 := Run(s1, open);
    if !Opens(f.reconnect) {
      DumpsAlone(s2, t);
    } else {
      StatementAlone(s2, t, true, f.second);
      assert On(s2.pending, s2.conn.value) == {};
      RunBoth(s2, StatementTurns(t, f.second), if Succeeds(f.second) then [] else [Ok(t)] + []);
      var s3 := Run(s2, StatementTurns(t, f.second));
      if Succeeds(f.second) {
        RunNone(s3);
      } else {
        DumpsAlone(s3, t);
      }
    }
  }

  lemma SendAlone(s: State, t: nat, f: Fate)
    requires At(s, t) == Locking(false) && Numbered(s) && s.holder == None && s.conn.Some?
    requires t !in s.committed && forall p :: p in s.pending ==> p.1 != t
    ensures Ended(s, Run(s, SendTurns(t, f)), t,
                  IsApplied(f.first) || (!Succeeds(f.first) && Opens(f.reconnect) && IsApplied(f.second)),
                  !Succeeds(f.first) && (!Opens(f.reconnect) || !Succeeds(f.second)),
                  Succeeds(f.first) || Opens(f.reconnect))
  {
    hide Run, RetryTurns, StatementTurns;
    StatementAlone(s, t, false, f.first);
    assert t !in On(s.pending, s.conn.value);
    var s1 := Run(s, StatementTurns(t, f.first));
    RunBoth(s, StatementTurns(t, f.first), if Succeeds(f.first) then [] else RetryTurns(t, f));
    if Succeeds(f.first) {
      RunNone(s1);
    } else {
      RetryAlone(s1, t, f);
    }
  }

  /** A call that is left alone, whatever the connection and the driver do: it ends with the lock free;
      its record is in the table iff one of the statements it got to was applied, and in the dump iff
      none succeeded; and it leaves a connection iff the last it needed was there. */
  lemma CallAlone(s: State, t: nat, f: Fate)
    requires At(s, t) == Start && Numbered(s) && s.holder == None
    requires t !in s.committed && t !in s.dumped && forall p :: p in s.pending ==> p.1 != t
    ensures var up := s.conn.Some? || Opens(f.connect);
            Ended(s, Run(s, CallTurns(s, t, f)), t,
                  up && (IsApplied(f.first) || (!Succeeds(f.first) && Opens(f.reconnect) && IsApplied(f.second))),
                  !up || (!Succeeds(f.first) && (!Opens(f.reconnect) || !Succeeds(f.second))),
                  up && (Succeeds(f.first) || Opens(f.reconnect)))
  {
    hide Run, SendTurns, OpenTurns;
    var s1 := Step(s, Ok(t));
    if s.conn.Some? {
      RunCons(s, Ok(t), SendTurns(t, f));
      SendAlone(s1, t, f);
    } else {
      var open := [Ok(t)] + OpenTurns(t, f.connect);
      var rest := if Opens(f.connect) then SendTurns(t, f) else [Ok(t)] + [];
      RunCons(s, Ok(t), open + rest);
      RunBoth(s1, open, rest);
      assert EnsureTurns(s1, t, f.connect) == open;
      EnsuresAlone(s1, t, false, f.connect);
      var s2 := Run(s1, open);
      if Opens(f.connect) {
        SendAlone(s2, t, f);
      } else {
        DumpsAlone(s2, t);
      }
    }
  }

  /** What a statement amounts to in the model of calls one after the other. */
  function AsStatement(st: Sent): PostgresStore.Statement {
    if st.executeFails then PostgresStore.ExecuteError
    else PostgresStore.Executed(
           if !st.commitFails then PostgresStore.Committed
           else if st.applied then PostgresStore.ErrorButApplied else PostgresStore.ErrorAndLost)
  }

  function AsDriver(f: Fate): PostgresStore.Driver {
    PostgresStore.Driver(Opens(f.connect), AsStatement(f.first), Opens(f.reconnect), AsStatement(f.second), true)
  }

  /** Left alone, a call of this model is the insert of the other one: same connection, same record in
      the table, same record in the dump. */
  lemma CallAloneIsInsert(s: State, t: nat, f: Fate, pg: PostgresStore.Pg, rec: Records.Record)
    requires At(s, t) == Start && Numbered(s) && s.holder == None
    requires t !in s.committed && t !in s.dumped && forall p :: p in s.pending ==> p.1 != t
    requires PostgresStore.OneRowPerKey(pg.table) && Records.Extractable(rec) && pg.connected == s.conn.Some?
    requires !PostgresStore.HasKey(pg.table, Records.ExtractKey(rec))
    ensures var after, inserted := Run(s, CallTurns(s, t, f)), PostgresStore.InsertStep(pg, rec, AsDriver(f));
            && At(after, t) == Done
            && (t in after.committed <==> PostgresStore.HasKey(inserted.table, Records.ExtractKey(rec)))
            && (t in after.dumped <==> inserted.dump == pg.dump + [rec])
            && (t !in after.dumped <==> inserted.dump == pg.dump)
            && after.conn.Some? == inserted.connected
  {
    hide Run, CallTurns, PostgresStore.HasKey, Records.Extractable, Records.ExtractKey, Records.ExtractFields,
      PostgresStore.OneRowPerKey;
    CallAlone(s, t, f);
    PostgresStore.InsertOutcome(pg, rec, AsDriver(f));
    assert |pg.dump + [rec]| != |pg.dump|;
  }

  /** A commit is the connection's: whoever makes it, also when it sets up the tables, every row that is
      pending on the connection is in the table afterwards. */
  lemma CommitCoversTheConnection(s: State, turn: Turn, row: nat)
    requires At(s, turn.thread).Creating? || At(s, turn.thread).Committing?
    requires s.conn.Some? && (s.conn.value, row) in s.pending && !turn.fails
    ensures row in Step(s, turn).committed && s.committed <= Step(s, turn).committed
  {
    assert row in On(s.pending, s.conn.value);
  }

  /** A call whose new connection is taken away before it answers dumps its record. */
  lemma TakenConnectionIsDumped(s: State, t: nat)
    requires At(s, t).Opened? && s.conn == None
    ensures t in Run(s, [Ok(t)] + ([Ok(t)] + [])).dumped
  {
    hide Run;
    RunCons(s, Ok(t), [Ok(t)] + []);
    DumpsAlone(Step(s, Ok(t)), t);
  }

  // -------------------------------------------------------------------------
  // Every call ends
  // -------------------------------------------------------------------------

  predicate HoldsLock(pc: Pc) {
    pc.Executing? || pc.Committing?
  }

  /** The lock is held by exactly the call between its execute and its commit. */
  ghost predicate Locked(s: State) {
    forall t: nat {:trigger At(s, t)} :: HoldsLock(At(s, t)) <==> s.holder == Some(t)
  }

  lemma StepKeepsLock(s: State, turn: Turn)
    requires Locked(s)
    ensures Locked(Step(s, turn))
  {
    var after := Step(s, turn);
    assert HoldsLock(At(s, turn.thread)) <==> s.holder == Some(turn.thread);
    StaysPut(s, turn);
    StepOnTheLock(s, turn);
    hide Step;
    forall u: nat
      ensures HoldsLock(At(after, u)) <==> after.holder == Some(u)
    {
      if u != turn.thread {
        assert HoldsLock(At(s, u)) <==> s.holder == Some(u);
      }
    }
  }

  lemma StaysPut(s: State, turn: Turn)
    ensures forall u: nat :: u != turn.thread ==> At(Step(s, turn), u) == At(s, u)
  {
  }

  lemma StepOnTheLock(s: State, turn: Turn)
    requires HoldsLock(At(s, turn.thread)) <==> s.holder == Some(turn.thread)
    ensures var t, after := turn.thread, Step(s, turn);
            && (HoldsLock(At(after, t)) <==> after.holder == Some(t))
            && (after.holder == s.holder || s.holder == None || (s.holder == Some(t) && after.holder == None))
            && (s.holder == None && after.holder != None ==> after.holder == Some(t))
  {
  }

  function Bonus(second: bool): nat {
    if second then 0 else 9
  }

  /** The steps a call has still to make, at most. */
  function Rank(pc: Pc): nat {
    match pc
    case Start => 19
    case Ensuring(second) => 9 + Bonus(second)
    case Probing(second) => 8 + Bonus(second)
    case Opening(second) => 7 + Bonus(second)
    case Creating(second) => 6 + Bonus(second)
    case Opened(second) => 5 + Bonus(second)
    case Locking(second) => 4 + Bonus(second)
    case Executing(second) => 3 + Bonus(second)
    case Committing(second) => 2 + Bonus(second)
    case Resetting => 10
    case Dumping => 1
    case Done => 0
    case Raised => 0
  }

  predicate Moves(s: State, turn: Turn, n: nat) {
    turn.thread < n && Step(s, turn) != s
  }

  predicate AllMove(s: State, schedule: seq<Turn>, n: nat)
    decreases schedule
  {
    schedule == [] || (Moves(s, schedule[0], n) && AllMove(Step(s, schedule[0]), schedule[1..], n))
  }

  function TotalRank(s: State, n: nat): nat {
    if n == 0 then 0 else TotalRank(s, n - 1) + Rank(At(s, n - 1))
  }

  lemma EnsureDescends(s: State, t: nat, pc: Pc, fails: bool)
    requires pc.Ensuring? || pc.Probing? || pc.Opening? || pc.Creating? || pc.Opened?
    ensures Rank(At(EnsureStep(s, t, pc, fails), t)) < Rank(pc)
  {
    hide On, Without;
  }

  lemma StatementDescends(s: State, t: nat, pc: Pc, fails: bool, applied: bool)
    requires (pc.Locking? && s.holder == None) || pc.Executing? || pc.Committing?
    ensures Rank(At(StatementStep(s, t, pc, fails, applied), t)) < Rank(pc)
  {
    hide On;
  }

  lemma StepDescends(s: State, turn: Turn)
    requires Step(s, turn) != s
    ensures Rank(At(Step(s, turn), turn.thread)) < Rank(At(s, turn.thread))
  {
    var t, pc := turn.thread, At(s, turn.thread);
    if pc.Ensuring? || pc.Probing? || pc.Opening? || pc.Creating? || pc.Opened? {
      EnsureDescends(s, t, pc, turn.fails);
      hide EnsureStep, StatementStep, Rank;
    } else if pc.Locking? || pc.Executing? || pc.Committing? {
      assert pc.Locking? && s.holder != None ==> Step(s, turn) == s;
      StatementDescends(s, t, pc, turn.fails, turn.applied);
      hide EnsureStep, StatementStep, Rank;
    } else {
      hide EnsureStep, StatementStep, Without;
    }
  }

  lemma {:induction false} TotalDescends(s: State, turn: Turn, n: nat)
    requires Step(s, turn) != s
    ensures var after := Step(s, turn);
            if turn.thread < n then TotalRank(after, n) < TotalRank(s, n) else TotalRank(after, n) == TotalRank(s, n)
  {
    hide Step, Rank, At;
    if n > 0 {
      TotalDescends(s, turn, n - 1);
      StepDescends(s, turn);
      StaysPut(s, turn);
    }
  }

  lemma InitiallyLocked(connected: bool)
    ensures Locked(Initial(connected)) && Numbered(Initial(connected))
  {
  }

  lemma {:induction false} RankIsBounded(s: State, n: nat)
    ensures TotalRank(s, n) <= 19 * n
  {
    if n > 0 {
      RankIsBounded(s, n - 1);
    }
  }

  predicate IsOver(pc: Pc) {
    pc.Done? || pc.Raised?
  }

  lemma StuckOnlyAtTheLock(s: State, u: nat)
    requires !IsOver(At(s, u)) && !(At(s, u).Locking? && s.holder != None)
    ensures Step(s, Ok(u)) != s
  {
    assert At(Step(s, Ok(u)), u) != At(s, u);
  }

  /** No deadlock: while a call is not over, some call can move. */
  lemma SomeCallMoves(s: State, t: nat, n: nat)
    requires Locked(s) && t < n && !IsOver(At(s, t))
    requires s.holder.Some? ==> s.holder.value < n
    ensures exists turn :: Moves(s, turn, n)
  {
    hide Step;
    var u := if At(s, t).Locking? && s.holder != None then s.holder.value else t;
    assert HoldsLock(At(s, u)) <==> s.holder == Some(u);
    StuckOnlyAtTheLock(s, u);
    assert Moves(s, Ok(u), n);
  }

  /** Calls end: in any interleaving and whatever the driver does, n calls make at most nineteen steps
      each, and when none can move any more every one has returned or raised. */
  lemma {:induction false} EveryCallEnds(s: State, schedule: seq<Turn>, n: nat)
    requires Locked(s) && AllMove(s, schedule, n) && (s.holder.Some? ==> s.holder.value < n)
    ensures |schedule| <= TotalRank(s, n) <= 19 * n
    ensures (forall turn :: !Moves(Run(s, schedule), turn, n)) ==>
              forall t: nat :: t < n ==> IsOver(At(Run(s, schedule), t))
    decreases schedule
  {
    hide Step, At, Locked, TotalRank, IsOver;
    RankIsBounded(s, n);
    if schedule != [] {
      var turn := schedule[0];
      StepKeepsLock(s, turn);
      TotalDescends(s, turn, n);
      HolderInRange(s, turn, n);
      EveryCallEnds(Step(s, turn), schedule[1..], n);
    } else {
      hide Moves;
      forall t: nat | t < n && forall turn :: !Moves(s, turn, n)
        ensures IsOver(At(s, t))
      {
        if !IsOver(At(s, t)) {
          SomeCallMoves(s, t, n);
        }
      }
    }
  }

  lemma HolderInRange(s: State, turn: Turn, n: nat)
    requires Locked(s) && turn.thread < n && (s.holder.Some? ==> s.holder.value < n)
    ensures Step(s, turn).holder.Some? ==> Step(s, turn).holder.value < n
  {
    hide Step;
    assert HoldsLock(At(s, turn.thread)) <==> s.holder == Some(turn.thread);
    StepOnTheLock(s, turn);
  }
}

/** The child-restart loop of manyfaced/mfh.py: exponential backoff between restarts and a
    crash-loop guard that ends the whole service. Times are seconds on the wall clock. */
module Supervisor {
  const MAX_RESTARTS: nat := 10

  /** The bookkeeping of one child: restarts since it was last seen healthy. */
  datatype Child = Child(attempts: nat, last: real, times: seq<real>)

  const HEALTHY := Child(0, 0.0, [])

  datatype Action = Healthy | Cooling | Restarted | GaveUp

  function Pow2(n: nat): nat {
    if n == 0 then 1 else 2 * Pow2(n - 1)
  }

  /** min(_BACKOFF_BASE * 2 ** attempts, _BACKOFF_MAX), in whole seconds. */
  function Backoff(attempts: nat): nat {
    if Pow2(attempts) < 30 then Pow2(attempts) else 30
  }

  /** One look at a child: the reset when it is alive, `_maybe_restart` when it is not. */
  function Look(c: Child, alive: bool, now: real): (Child, Action) {
    if alive then (HEALTHY, Healthy)
    else if c.last != 0.0 && now - c.last < Backoff(c.attempts) as real then (c, Cooling)
    else if c.attempts >= MAX_RESTARTS then (c, GaveUp)
    else (Child(c.attempts + 1, now, c.times + [now]), Restarted)
  }

  /** The k-th restart since the child was healthy waits out the backoff of the one before. */
  predicate Spaced(times: seq<real>) {
    forall k :: 1 <= k < |times| ==> times[k] - times[k - 1] >= Backoff(k) as real
  }

  predicate Inv(c: Child) {
    && c.attempts == |c.times| <= MAX_RESTARTS
    && Spaced(c.times)
    && (if c.times == [] then c.last == 0.0 else c.last == c.times[|c.times| - 1] && c.last > 0.0)
  }

  // -------------------------------------------------------------------------
  // The loop over the three children
  // -------------------------------------------------------------------------

  datatype Key = ClientProc | ServerProc | DashboardProc

  /** What one supervised child shows in one round: whether it is configured, alive, and the
      clock when `_maybe_restart` reads it. */
  datatype Sight = Sight(configured: bool, alive: bool, now: real)

  datatype Round = Round(client: Sight, server: Sight, dashboard: Sight)

  function Of(r: Round, k: Key): Sight {
    match k
    case ClientProc => r.client
    case ServerProc => r.server
    case DashboardProc => r.dashboard
  }

  datatype Sup = Sup(client: Child, server: Child, dashboard: Child, exited: bool)

  const STARTED := Sup(HEALTHY, HEALTHY, HEALTHY, false)

  function ChildOf(s: Sup, k: Key): Child {
    match k
    case ClientProc => s.client
    case ServerProc => s.server
    case DashboardProc => s.dashboard
  }

  function Put(s: Sup, k: Key, c: Child): Sup {
    match k
    case ClientProc => s.(client := c)
    case ServerProc => s.(server := c)
    case DashboardProc => s.(dashboard := c)
  }

  /** One child's turn; after `sys.exit(1)` nothing more happens. */
  function Turn(s: Sup, k: Key, sight: Sight): Sup {
    if s.exited || !sight.configured then s
    else
      var (c, action) := Look(ChildOf(s, k), sight.alive, sight.now);
      Put(s, k, c).(exited := action == GaveUp)
  }

  function OneRound(s: Sup, r: Round): Sup {
    Turn(Turn(Turn(s, ClientProc, r.client), ServerProc, r.server), DashboardProc, r.dashboard)
  }

  function Run(s: Sup, rounds: seq<Round>): Sup
    decreases rounds
  {
    if rounds == [] then s else Run(OneRound(s, rounds[0]), rounds[1..])
  }

  class Supervise {
    var children: map<Key, Child>
    var exited: bool

    ghost function State(): Sup
      reads this
      requires Valid()
    {
      Sup(children[ClientProc], children[ServerProc], children[DashboardProc], exited)
    }

    ghost predicate Valid()
      reads this
    {
      forall k: Key :: k in children
    }

    constructor ()
      ensures Valid() && State() == STARTED
    {
      children := map[ClientProc := HEALTHY, ServerProc := HEALTHY, DashboardProc := HEALTHY];
      exited := false;
      new;
      forall k: Key
        ensures k in children
      {
        match k
        case ClientProc =>
        case ServerProc =>
        case DashboardProc =>
      }
    }

    method LookAt(k: Key, sight: Sight)
      requires Valid()
      modifies this
      ensures Valid() && State() == Turn(old(State()), k, sight)
    {
      if exited || !sight.configured {
        return;
      }
      var st := children[k];
      if sight.alive {
        children := children[k := HEALTHY];
      } else if st.last != 0.0 && sight.now - st.last < Backoff(st.attempts) as real {
      } else if st.attempts >= MAX_RESTARTS {
        exited := true;
      } else {
        children := children[k := Child(st.attempts + 1, sight.now, st.times + [sight.now])];
      }
    }

    method Loop(rounds: seq<Round>)
      requires Valid()
      modifies this
      ensures Valid() && State() == Run(old(State()), rounds)
      ensures old(State()) == STARTED && (forall r :: r in rounds ==> ClockRuns(r)) ==>
                (exited <==> SomeRoundGivesUp(rounds))
    {
      hide Turn, SomeRoundGivesUp, ClockRuns;
      var i := 0;
      while i < |rounds|
        invariant i <= |rounds| && Valid()
        invariant Run(State(), rounds[i..]) == Run(old(State()), rounds)
      {
        LookAt(ClientProc, rounds[i].client);
        LookAt(ServerProc, rounds[i].server);
        LookAt(DashboardProc, rounds[i].dashboard);
        i := i + 1;
      }
      if forall r :: r in rounds ==> ClockRuns(r) {
        ExitsIff(rounds);
      }
    }
  }

  // -------------------------------------------------------------------------
  // Safety: every run
  // -------------------------------------------------------------------------

  predicate AllInv(s: Sup) {
    Inv(s.client) && Inv(s.server) && Inv(s.dashboard)
  }

  predicate ClockRuns(r: Round) {
    r.client.now > 0.0 && r.server.now > 0.0 && r.dashboard.now > 0.0
  }

  lemma LookKeepsInv(c: Child, alive: bool, now: real)
    requires Inv(c) && now > 0.0
    ensures Inv(Look(c, alive, now).0)
    ensures Look(c, alive, now).1 == GaveUp ==> now - c.last >= 30.0 && c.attempts == MAX_RESTARTS
  {
    assert Pow2(10) == 1024 by { assert Pow2(5) == 32; }
  }

  lemma TurnKeepsInv(s: Sup, k: Key, sight: Sight)
    requires AllInv(s) && sight.now > 0.0
    ensures AllInv(Turn(s, k, sight))
  {
    LookKeepsInv(ChildOf(s, k), sight.alive, sight.now);
  }

  lemma RoundKeepsInv(s: Sup, r: Round)
    requires AllInv(s) && ClockRuns(r)
    ensures AllInv(OneRound(s, r))
  {
    var one := Turn(s, ClientProc, r.client);
    TurnKeepsInv(s, ClientProc, r.client);
    TurnKeepsInv(one, ServerProc, r.server);
    TurnKeepsInv(Turn(one, ServerProc, r.server), DashboardProc, r.dashboard);
  }

  /** In every run, each child's attempts stay within 0..10, equal the number of recorded
      restarts, and consecutive restarts without a healthy look keep the backoff distance. */
  lemma {:induction false} RunKeepsInv(s: Sup, rounds: seq<Round>)
    requires AllInv(s) && forall r :: r in rounds ==> ClockRuns(r)
    ensures AllInv(Run(s, rounds))
    decreases rounds
  {
    if rounds != [] {
      RoundKeepsInv(s, rounds[0]);
      RunKeepsInv(OneRound(s, rounds[0]), rounds[1..]);
    }
  }

  /** Sum of the backoffs that follow restarts k, k+1, ..., 10. */
  function Budget(k: nat): nat
    decreases MAX_RESTARTS + 1 - k
  {
    if k > MAX_RESTARTS then 0 else Backoff(k) + Budget(k + 1)
  }

  lemma BudgetSpends(k: nat)
    requires k <= MAX_RESTARTS
    ensures Budget(k) == Backoff(k) + Budget(k + 1)
  {
  }

  lemma BudgetIs210()
    ensures Budget(1) == 210
  {
    assert Pow2(2) == 4 && Pow2(4) == 16;
    assert Pow2(5) == 32 && Pow2(6) == 64 && Pow2(7) == 128 && Pow2(8) == 256 && Pow2(9) == 512 && Pow2(10) == 1024;
    assert Budget(10) == 30 && Budget(9) == 60 && Budget(8) == 90 && Budget(7) == 120;
    assert Budget(6) == 150 && Budget(5) == 180;
    assert Budget(4) == 196 && Budget(3) == 204 && Budget(2) == 208;
  }

  /** The waits are 2, 4, 8 and 16 seconds, then 30 each. */
  lemma {:induction false} BackoffSchedule(n: nat)
    ensures Backoff(1) == 2 && Backoff(2) == 4 && Backoff(3) == 8 && Backoff(4) == 16
    ensures n >= 5 ==> Backoff(n) == 30 && Pow2(n) >= 32
  {
    assert Pow2(2) == 4 && Pow2(4) == 16;
    if n > 5 {
      BackoffSchedule(n - 1);
    } else {
      assert Pow2(5) == 32;
    }
  }

  lemma {:induction false} SpacingAddsUp(times: seq<real>, n: nat)
    requires Spaced(times) && 1 <= n <= |times| <= MAX_RESTARTS
    ensures times[n - 1] - times[0] + Budget(n) as real >= Budget(1) as real
  {
    if n > 1 {
      SpacingAddsUp(times, n - 1);
      assert times[n - 1] - times[n - 2] >= Backoff(n - 1) as real;
      assert Budget(n - 1) == Backoff(n - 1) + Budget(n);
    }
  }

  /** Giving up happens only after ten restarts in a row, at least 210 s after the first one. */
  lemma GivesUpOnlyAfter210Seconds(c: Child, alive: bool, now: real)
    requires Inv(c) && now > 0.0 && Look(c, alive, now).1 == GaveUp
    ensures c.attempts == MAX_RESTARTS && now - c.times[0] >= 210.0
  {
    LookKeepsInv(c, alive, now);
    SpacingAddsUp(c.times, 10);
    BudgetIs210();
    assert Budget(10) == 30 by { assert Pow2(10) == 1024 by { assert Pow2(5) == 32; } assert Budget(11) == 0; }
  }

  /** At system level: if a round makes the service exit, some child was dead with ten recorded
      restarts, and the clock stood at least 210 s past its first one. */
  lemma ExitNeedsACrashLoop(s: Sup, r: Round)
    requires AllInv(s) && !s.exited && ClockRuns(r) && OneRound(s, r).exited
    ensures exists k: Key ::
              var c := ChildOf(OneRound(s, r), k);
              Of(r, k).configured && !Of(r, k).alive && c.attempts == MAX_RESTARTS && Of(r, k).now - c.times[0] >= 210.0
  {
    var one := Turn(s, ClientProc, r.client);
    var two := Turn(one, ServerProc, r.server);
    TurnKeepsInv(s, ClientProc, r.client);
    TurnKeepsInv(one, ServerProc, r.server);
    var k := if one.exited then ClientProc else if two.exited then ServerProc else DashboardProc;
    var before := if one.exited then s else if two.exited then one else two;
    GivesUpOnlyAfter210Seconds(ChildOf(before, k), Of(r, k).alive, Of(r, k).now);
    assert ChildOf(OneRound(s, r), k) == ChildOf(before, k);
  }

  // -------------------------------------------------------------------------
  // When a run ends, from what the looks saw
  // -------------------------------------------------------------------------

  /** The clock readings of the looks that found the child dead since it was last seen alive. */
  function DeadLooks(rounds: seq<Round>, k: Key): seq<real> {
    if rounds == [] then []
    else
      var sight := Of(rounds[|rounds| - 1], k);
      if !sight.configured then DeadLooks(rounds[..|rounds| - 1], k)
      else if sight.alive then []
      else DeadLooks(rounds[..|rounds| - 1], k) + [sight.now]
  }

  /** Which of these looks restart the child: the first one, and each one that comes a backoff after
      the restart before it, ten in all. */
  function Restarts(dead: seq<real>): seq<real> {
    if dead == [] then []
    else
      var before := Restarts(dead[..|dead| - 1]);
      var now := dead[|dead| - 1];
      if before == [] || (|before| < 10 && now - before[|before| - 1] >= Backoff(|before|) as real) then before + [now]
      else before
  }

  /** The last of these looks finds the child dead half a minute or more after its tenth restart. */
  predicate IsCrashLoop(dead: seq<real>) {
    dead != [] &&
    var before := Restarts(dead[..|dead| - 1]);
    |before| == 10 && dead[|dead| - 1] - before[9] >= 30.0
  }

  /** The last round gives up on the child. */
  predicate GivesUpOn(rounds: seq<Round>, k: Key) {
    && rounds != [] && Of(rounds[|rounds| - 1], k).configured && !Of(rounds[|rounds| - 1], k).alive
    && IsCrashLoop(DeadLooks(rounds, k))
  }

  /** What the bookkeeping of a child is after some restarts. */
  function Bookkeeping(times: seq<real>): Child {
    Child(|times|, if times == [] then 0.0 else times[|times| - 1], times)
  }

  lemma {:induction false} RestartsAreDeadLooks(dead: seq<real>)
    ensures |Restarts(dead)| <= 10 && |Restarts(dead)| <= |dead|
    ensures dead != [] ==> Restarts(dead) != []
    ensures forall t :: t in Restarts(dead) ==> t in dead
  {
    if dead != [] {
      RestartsAreDeadLooks(dead[..|dead| - 1]);
    }
  }

  lemma OneMoreDeadLook(dead: seq<real>, now: real)
    ensures var before := Restarts(dead);
            && Restarts(dead + [now]) ==
               (if before == [] || (|before| < 10 && now - before[|before| - 1] >= Backoff(|before|) as real)
                then before + [now] else before)
            && (IsCrashLoop(dead + [now]) <==> |before| == 10 && now - before[9] >= 30.0)
  {
    hide Backoff;
    assert (dead + [now])[..|dead|] == dead;
  }

  /** One look, in these terms. */
  lemma LookKeepsTheBook(dead: seq<real>, now: real)
    requires now > 0.0 && forall t :: t in dead ==> t > 0.0
    ensures Look(Bookkeeping(Restarts(dead)), false, now) ==
            if IsCrashLoop(dead + [now]) then (Bookkeeping(Restarts(dead)), GaveUp)
            else (Bookkeeping(Restarts(dead + [now])),
                  if Restarts(dead + [now]) == Restarts(dead) then Cooling else Restarted)
  {
    hide Backoff, Restarts, IsCrashLoop;
    var before := Restarts(dead);
    RestartsAreDeadLooks(dead);
    BackoffSchedule(10);
    OneMoreDeadLook(dead, now);
    assert before != [] ==> before[|before| - 1] in before;
  }

  lemma TurnKeepsTheBook(s: Sup, k: Key, sight: Sight, dead: seq<real>)
    requires !s.exited && sight.now > 0.0 && forall t :: t in dead ==> t > 0.0
    requires ChildOf(s, k) == Bookkeeping(Restarts(dead))
    ensures Turn(s, k, sight).exited <==> sight.configured && !sight.alive && IsCrashLoop(dead + [sight.now])
    ensures !Turn(s, k, sight).exited ==>
              ChildOf(Turn(s, k, sight), k) ==
              Bookkeeping(Restarts(if !sight.configured then dead else if sight.alive then [] else dead + [sight.now]))
  {
    LookKeepsTheBook(dead, sight.now);
    hide Restarts, IsCrashLoop, Backoff;
    assert Restarts([]) == [] by { NoDeadLooks(); }
  }

  lemma NoDeadLooks()
    ensures Restarts([]) == []
  {
  }

  /** Every child's bookkeeping is that of its dead looks since it was last seen alive. */
  predicate Booked(s: Sup, rounds: seq<Round>) {
    && s.client == Bookkeeping(Restarts(DeadLooks(rounds, ClientProc)))
    && s.server == Bookkeeping(Restarts(DeadLooks(rounds, ServerProc)))
    && s.dashboard == Bookkeeping(Restarts(DeadLooks(rounds, DashboardProc)))
  }

  lemma {:induction false} DeadLooksArePositive(rounds: seq<Round>, k: Key)
    requires forall r :: r in rounds ==> ClockRuns(r)
    ensures forall t :: t in DeadLooks(rounds, k) ==> t > 0.0
  {
    if rounds != [] {
      DeadLooksArePositive(rounds[..|rounds| - 1], k);
      assert ClockRuns(rounds[|rounds| - 1]);
    }
  }

  lemma DeadLooksStep(rounds: seq<Round>, r: Round, k: Key)
    ensures DeadLooks(rounds + [r], k) ==
            if !Of(r, k).configured then DeadLooks(rounds, k)
            else if Of(r, k).alive then [] else DeadLooks(rounds, k) + [Of(r, k).now]
    ensures GivesUpOn(rounds + [r], k) <==>
            Of(r, k).configured && !Of(r, k).alive && IsCrashLoop(DeadLooks(rounds, k) + [Of(r, k).now])
  {
    hide IsCrashLoop;
    assert (rounds + [r])[..|rounds|] == rounds;
  }

  lemma RoundKeepsTheBook(s: Sup, rounds: seq<Round>, r: Round)
    requires !s.exited && Booked(s, rounds) && ClockRuns(r) && forall q :: q in rounds ==> ClockRuns(q)
    ensures OneRound(s, r).exited <==> exists k :: GivesUpOn(rounds + [r], k)
    ensures !OneRound(s, r).exited ==> Booked(OneRound(s, r), rounds + [r])
  {
    hide Restarts, IsCrashLoop, Bookkeeping, DeadLooks, GivesUpOn, Look;
    forall k
      ensures forall t :: t in DeadLooks(rounds, k) ==> t > 0.0
      ensures DeadLooks(rounds + [r], k) ==
              if !Of(r, k).configured then DeadLooks(rounds, k)
              else if Of(r, k).alive then [] else DeadLooks(rounds, k) + [Of(r, k).now]
      ensures GivesUpOn(rounds + [r], k) <==>
              Of(r, k).configured && !Of(r, k).alive && IsCrashLoop(DeadLooks(rounds, k) + [Of(r, k).now])
    {
      DeadLooksArePositive(rounds, k);
      DeadLooksStep(rounds, r, k);
    }
    var one := Turn(s, ClientProc, r.client);
    TurnKeepsTheBook(s, ClientProc, r.client, DeadLooks(rounds, ClientProc));
    if !one.exited {
      var two := Turn(one, ServerProc, r.server);
      TurnKeepsTheBook(one, ServerProc, r.server, DeadLooks(rounds, ServerProc));
      if !two.exited {
        TurnKeepsTheBook(two, DashboardProc, r.dashboard, DeadLooks(rounds, DashboardProc));
      }
    }
  }

  lemma {:induction false} RunGrows(s: Sup, rounds: seq<Round>, r: Round)
    ensures Run(s, rounds + [r]) == OneRound(Run(s, rounds), r)
    decreases rounds
  {
    hide OneRound;
    if rounds == [] {
      assert rounds + [r] == [r] && [r][1..] == [];
    } else {
      assert (rounds + [r])[0] == rounds[0] && (rounds + [r])[1..] == rounds[1..] + [r];
      RunGrows(OneRound(s, rounds[0]), rounds[1..], r);
    }
  }

  ghost predicate SomeRoundGivesUp(rounds: seq<Round>) {
    exists n: nat, k :: n <= |rounds| && GivesUpOn(rounds[..n], k)
  }

  /** From the start, for all three children: as long as the service runs, the restarts on the books
      of a child are exactly those since it was last seen alive; and the service ends if and only if
      some child is found dead, half a minute or more after its tenth restart, with no look in
      between that saw it alive. */
  lemma {:induction false} ExitsIff(rounds: seq<Round>)
    requires forall r :: r in rounds ==> ClockRuns(r)
    ensures Run(STARTED, rounds).exited <==> SomeRoundGivesUp(rounds)
    ensures !Run(STARTED, rounds).exited ==> Booked(Run(STARTED, rounds), rounds)
  {
    hide GivesUpOn, OneRound;
    if rounds == [] {
      NothingGivesUp();
    } else {
      var n := |rounds| - 1;
      var before := rounds[..n];
      assert rounds == before + [rounds[n]];
      ExitsIff(before);
      hide Booked;
      RunGrows(STARTED, before, rounds[n]);
      SomeRoundGrows(before, rounds[n]);
      if Run(STARTED, before).exited {
        ExitedIsFinal(Run(STARTED, before), rounds[n]);
      } else {
        RoundKeepsTheBook(Run(STARTED, before), before, rounds[n]);
      }
    }
  }

  lemma NothingGivesUp()
    ensures !SomeRoundGivesUp([]) && Booked(STARTED, [])
  {
  }

  lemma ExitedIsFinal(s: Sup, r: Round)
    requires s.exited
    ensures OneRound(s, r).exited
  {
  }

  lemma SomeRoundGrows(rounds: seq<Round>, r: Round)
    ensures SomeRoundGivesUp(rounds + [r]) <==> SomeRoundGivesUp(rounds) || exists k :: GivesUpOn(rounds + [r], k)
  {
    hide GivesUpOn;
    var all := rounds + [r];
    assert all[..|all|] == all;
    assert forall n: nat :: n <= |rounds| ==> all[..n] == rounds[..n];
    if n: nat, k :| n <= |all| && GivesUpOn(all[..n], k) {
      assert n == |all| || all[..n] == rounds[..n];
    }
    if n: nat, k :| n <= |rounds| && GivesUpOn(rounds[..n], k) {
      assert GivesUpOn(all[..n], k);
    }
  }

  /** A run in which no child is found dead eleven times between two looks that see it alive never
      ends the service. */
  lemma FewDeathsNeverExit(rounds: seq<Round>)
    requires forall r :: r in rounds ==> ClockRuns(r)
    requires forall n: nat, k :: n <= |rounds| ==> |DeadLooks(rounds[..n], k)| <= 10
    ensures !Run(STARTED, rounds).exited
  {
    hide Run, DeadLooks, Restarts;
    ExitsIff(rounds);
    if n: nat, k :| n <= |rounds| && GivesUpOn(rounds[..n], k) {
      var dead := DeadLooks(rounds[..n], k);
      RestartsAreDeadLooks(dead[..|dead| - 1]);
    }
  }

  // -------------------------------------------------------------------------
  // Liveness: a child that stays dead ends the service
  // -------------------------------------------------------------------------

  /** The child is found dead in every round, and the clock advances by a second at least. */
  predicate DeadAndTicking(rounds: seq<Round>, k: Key, since: real) {
    rounds != [] ==>
      && Of(rounds[0], k).configured && !Of(rounds[0], k).alive
      && Of(rounds[0], k).now >= since + 1.0
      && DeadAndTicking(rounds[1..], k, Of(rounds[0], k).now)
  }

  lemma RoundLooksAt(s: Sup, r: Round, k: Key)
    requires !OneRound(s, r).exited && Of(r, k).configured
    ensures var (c, action) := Look(ChildOf(s, k), Of(r, k).alive, Of(r, k).now);
            ChildOf(OneRound(s, r), k) == c && action != GaveUp
  {
  }

  lemma {:induction false} ExitedStays(s: Sup, rounds: seq<Round>)
    requires s.exited
    ensures Run(s, rounds) == s
    decreases rounds
  {
    if rounds != [] {
      ExitedStays(s, rounds[1..]);
    }
  }

  /** `waited` rounds of the current cool-down have passed since the last restart. */
  lemma {:induction false} DeadChildRunsOutOfBudget(s: Sup, rounds: seq<Round>, k: Key, waited: nat, since: real)
    requires AllInv(s) && (forall r :: r in rounds ==> ClockRuns(r))
    requires DeadAndTicking(rounds, k, since)
    requires ChildOf(s, k).attempts >= 1 && since >= ChildOf(s, k).last + waited as real
    requires waited < Backoff(ChildOf(s, k).attempts)
    requires |rounds| + waited >= Budget(ChildOf(s, k).attempts)
    ensures Run(s, rounds).exited
    decreases rounds
  {
    hide OneRound, Pow2, Backoff;
    var c := ChildOf(s, k);
    BudgetSpends(c.attempts);
    hide Budget;
    var r := rounds[0];
    var next := OneRound(s, r);
    if next.exited {
      ExitedStays(next, rounds[1..]);
    } else {
      RoundLooksAt(s, r, k);
      RoundKeepsInv(s, r);
      var now := Of(r, k).now;
      if now - c.last < Backoff(c.attempts) as real {
        DeadChildRunsOutOfBudget(next, rounds[1..], k, waited + 1, now);
      } else {
        assert Backoff(c.attempts + 1) > 0 by { BackoffIsPositive(c.attempts + 1); }
        DeadChildRunsOutOfBudget(next, rounds[1..], k, 0, now);
      }
    }
  }

  lemma {:induction false} BackoffIsPositive(n: nat)
    ensures Backoff(n) > 0 && Pow2(n) > 0
  {
    if n > 0 {
      BackoffIsPositive(n - 1);
    }
  }

  lemma {:induction false} BudgetFalls(k: nat)
    requires 1 <= k
    ensures Budget(k) <= 210
  {
    if k == 1 {
      BudgetIs210();
    } else if k <= MAX_RESTARTS + 1 {
      BudgetFalls(k - 1);
      BudgetSpends(k - 1);
    }
  }

  /** The first look at a dead child that is not cooling down restarts it at once. */
  lemma FirstDeathRestartsAtOnce(s: Sup, r: Round, k: Key)
    requires AllInv(s) && ChildOf(s, k).attempts == 0
    requires Of(r, k).configured && !Of(r, k).alive && !OneRound(s, r).exited
    ensures ChildOf(OneRound(s, r), k) == Child(1, Of(r, k).now, [Of(r, k).now])
  {
    RoundLooksAt(s, r, k);
  }

  /** The rounds it takes to give up on a child: one more when it has to be restarted first. */
  function Patience(c: Child): nat {
    if c.attempts == 0 then 211 else 210
  }

  /** From any state the service can be in: a child that is found dead round after round, a second
      apart or more, has ended it after 211 rounds at most, or 210 once it has been restarted,
      whatever the other two children do. */
  lemma DeadChildEndsTheService(s: Sup, rounds: seq<Round>, k: Key, since: real)
    requires AllInv(s) && (forall r :: r in rounds ==> ClockRuns(r))
    requires DeadAndTicking(rounds, k, since) && since >= ChildOf(s, k).last
    requires |rounds| >= Patience(ChildOf(s, k))
    ensures Run(s, rounds).exited
  {
    hide OneRound, Pow2, Backoff, Budget;
    var c := ChildOf(s, k);
    BackoffIsPositive(c.attempts);
    if c.attempts > 0 {
      BudgetFalls(c.attempts);
      DeadChildRunsOutOfBudget(s, rounds, k, 0, since);
    } else {
      var r, next := rounds[0], OneRound(s, rounds[0]);
      if next.exited {
        ExitedStays(next, rounds[1..]);
      } else {
        FirstDeathRestartsAtOnce(s, r, k);
        RoundKeepsInv(s, r);
        BudgetIs210();
        BackoffIsPositive(1);
        DeadChildRunsOutOfBudget(next, rounds[1..], k, 0, Of(r, k).now);
      }
    }
  }

  /** In particular, once a child has been restarted for the first time and stays dead. */
  lemma DeadChildEndsTheServiceWithin210Rounds(s: Sup, rounds: seq<Round>, k: Key)
    requires AllInv(s) && (forall r :: r in rounds ==> ClockRuns(r))
    requires ChildOf(s, k).attempts == 1 && DeadAndTicking(rounds, k, ChildOf(s, k).last)
    requires |rounds| >= 210
    ensures Run(s, rounds).exited
  {
    DeadChildEndsTheService(s, rounds, k, ChildOf(s, k).last);
  }
}

/** get_storage (manyfaced/db/storage.py): double-checked locking around one process-wide
    backend, stepped one read, write or lock operation at a time in any interleaving. */
module StorageSingleton {
  import opened Wrappers

  /** Where a thread stands inside get_storage. */
  datatype Pc =
    | Outside
    | SawUnlocked          // the unlocked check saw an instance; the return re-reads the global
    | WantsLock
    | Checking             // holds the lock, about to check again
    | SawLocked
    | Building
    | Publishing(instance: nat)
    | Published

  /** Instances are numbered in the order of their construction. */
  datatype State = State(
    singleton: Option<nat>, holder: Option<nat>, built: nat,
    pcs: map<nat, Pc>, returned: seq<Result>)

  /** Which thread's call returned what. */
  datatype Result = Result(thread: nat, instance: Option<nat>)

  const INITIAL := State(None, None, 0, map[], [])

  function At(s: State, t: nat): Pc {
    if t in s.pcs then s.pcs[t] else Outside
  }

  function Go(s: State, t: nat, pc: Pc): State {
    s.(pcs := s.pcs[t := pc])
  }

  function Return(s: State, t: nat): State {
    Go(s, t, Outside).(returned := s.returned + [Result(t, s.singleton)])
  }

  /** One step of thread `t`; `fails` says whether the constructor raises, if it is run. */
  function Step(s: State, t: nat, fails: bool): State {
    match At(s, t)
    case Outside => Go(s, t, if s.singleton != None then SawUnlocked else WantsLock)
    case SawUnlocked => Return(s, t)
    case WantsLock => if s.holder == None then Go(s, t, Checking).(holder := Some(t)) else s
    case Checking => Go(s, t, if s.singleton != None then SawLocked else Building)
    case SawLocked => Return(s, t).(holder := None)
    case Building =>
      if fails then Go(s, t, Outside).(holder := None)
      else Go(s, t, Publishing(s.built)).(built := s.built + 1)
    case Publishing(instance) => Go(s, t, Published).(singleton := Some(instance))
    case Published => Return(s, t).(holder := None)
  }

  datatype Turn = Turn(thread: nat, fails: bool)

  function Run(s: State, schedule: seq<Turn>): State
    decreases schedule
  {
    if schedule == [] then s else Run(Step(s, schedule[0].thread, schedule[0].fails), schedule[1..])
  }

  predicate HoldsLock(pc: Pc) {
    pc.Checking? || pc.SawLocked? || pc.Building? || pc.Publishing? || pc.Published?
  }

  predicate Fits(s: State, pc: Pc) {
    match pc
    case SawUnlocked => s.singleton != None
    case SawLocked => s.singleton != None
    case Published => s.singleton != None
    case Building => s.singleton == None
    case Publishing(instance) => s.singleton == None && instance == 0
    case _ => true
  }

  ghost predicate Inv(s: State) {
    && (s.singleton == None || s.singleton == Some(0))
    && (forall t: nat {:trigger At(s, t)} :: Fits(s, At(s, t)) && (HoldsLock(At(s, t)) <==> s.holder == Some(t)))
    && s.built == (if s.singleton != None || (s.holder != None && At(s, s.holder.value).Publishing?) then 1 else 0)
    && (forall r :: r in s.returned ==> r.instance == Some(0))
  }

  lemma StepKeepsInv(s: State, t: nat, fails: bool)
    requires Inv(s)
    ensures Inv(Step(s, t, fails))
  {
    var after := Step(s, t, fails);
    assert Fits(s, At(s, t));
    forall u: nat
      ensures Fits(after, At(after, u)) && (HoldsLock(At(after, u)) <==> after.holder == Some(u))
    {
      assert Fits(s, At(s, u)) && (HoldsLock(At(s, u)) <==> s.holder == Some(u));
    }
  }

  lemma {:induction false} RunKeepsInv(s: State, schedule: seq<Turn>)
    requires Inv(s)
    ensures Inv(Run(s, schedule))
    decreases schedule
  {
    if schedule != [] {
      StepKeepsInv(s, schedule[0].thread, schedule[0].fails);
      RunKeepsInv(Step(s, schedule[0].thread, schedule[0].fails), schedule[1..]);
    }
  }

  lemma InitiallyInv()
    ensures Inv(INITIAL)
  {
  }

  /** From the start of the process, with any number of threads in any interleaving and constructors
      that fail or not: at most one backend is ever constructed, and every call that returns,
      returns that instance. */
  lemma OneBackendForAll(schedule: seq<Turn>)
    ensures Run(INITIAL, schedule).built <= 1
    ensures forall r :: r in Run(INITIAL, schedule).returned ==> r.instance == Some(0)
  {
    InitiallyInv();
    RunKeepsInv(INITIAL, schedule);
  }

  /** Once a backend is returned it stays the one: nothing unpublishes it. */
  lemma {:induction false} PublishedStays(s: State, schedule: seq<Turn>)
    requires Inv(s) && s.singleton != None
    ensures Run(s, schedule).singleton == s.singleton && Run(s, schedule).built == s.built
    decreases schedule
  {
    if schedule != [] {
      var turn := schedule[0];
      assert Fits(s, At(s, turn.thread));
      StepKeepsInv(s, turn.thread, turn.fails);
      PublishedStays(Step(s, turn.thread, turn.fails), schedule[1..]);
    }
  }

  // -------------------------------------------------------------------------
  // Calls end
  // -------------------------------------------------------------------------

  function Steps(t: nat, fails: bool, n: nat): seq<Turn> {
    if n == 0 then [] else [Turn(t, fails)] + Steps(t, fails, n - 1)
  }

  lemma RunStep(s: State, t: nat, fails: bool, n: nat)
    requires n > 0
    ensures Run(s, Steps(t, fails, n)) == Run(Step(s, t, fails), Steps(t, fails, n - 1))
  {
    hide Step;
    assert Steps(t, fails, n)[1..] == Steps(t, fails, n - 1);
  }

  /** A call that finds the lock free and is left alone, exactly: two steps when there is a backend;
      six when it builds one and publishes it; and four when its constructor raises, after which the
      lock is free again and there is still no backend. */
  lemma CallAlone(s: State, t: nat, fails: bool)
    requires Inv(s) && At(s, t) == Outside && s.holder == None
    ensures s.singleton != None ==>
              var after := Run(s, Steps(t, fails, 2));
              At(after, t) == Outside && after == s.(pcs := after.pcs, returned := s.returned + [Result(t, Some(0))])
    ensures s.singleton == None && !fails ==>
              var after := Run(s, Steps(t, fails, 6));
              && At(after, t) == Outside
              && after == s.(pcs := after.pcs, singleton := Some(0), built := 1,
                             returned := s.returned + [Result(t, Some(0))])
    ensures s.singleton == None && fails ==>
              var after := Run(s, Steps(t, fails, 4));
              At(after, t) == Outside && after == s.(pcs := after.pcs)
  {
    hide Run, Steps, Inv, Step, At;
    InstanceIsZero(s);
    if s.singleton != None {
      FastCall(s, t, fails);
    } else if fails {
      FailedCall(s, t);
    } else {
      BuildingCall(s, t);
    }
  }

  lemma FastCall(s: State, t: nat, fails: bool)
    requires At(s, t) == Outside && s.singleton == Some(0)
    ensures var after := Run(s, Steps(t, fails, 2));
            At(after, t) == Outside && after == s.(pcs := after.pcs, returned := s.returned + [Result(t, Some(0))])
  {
    hide Run, Steps;
    var s1 := Step(s, t, fails);
    RunStep(s, t, fails, 2);
    RunStep(s1, t, fails, 1);
    NoSteps(Step(s1, t, fails), t, fails);
  }

  /** The steps up to the constructor. */
  lemma SlowStart(s: State, t: nat, fails: bool, n: nat)
    requires At(s, t) == Outside && s.holder == None && s.singleton == None && n >= 3
    ensures var building := s.(pcs := s.pcs[t := Building], holder := Some(t));
            Run(s, Steps(t, fails, n)) == Run(building, Steps(t, fails, n - 3))
  {
    hide Run, Steps;
    var s1 := Step(s, t, fails);
    var s2 := Step(s1, t, fails);
    RunStep(s, t, fails, n);
    RunStep(s1, t, fails, n - 1);
    RunStep(s2, t, fails, n - 2);
    assert Step(s2, t, fails) == s.(pcs := s.pcs[t := Building], holder := Some(t));
  }

  lemma FailedCall(s: State, t: nat)
    requires At(s, t) == Outside && s.holder == None && s.singleton == None
    ensures var after := Run(s, Steps(t, true, 4));
            At(after, t) == Outside && after == s.(pcs := after.pcs)
  {
    hide Run, Steps;
    SlowStart(s, t, true, 4);
    var building := s.(pcs := s.pcs[t := Building], holder := Some(t));
    RunStep(building, t, true, 1);
    NoSteps(Step(building, t, true), t, true);
  }

  lemma BuildingCall(s: State, t: nat)
    requires At(s, t) == Outside && s.holder == None && s.singleton == None && s.built == 0
    ensures var after := Run(s, Steps(t, false, 6));
            && At(after, t) == Outside
            && after == s.(pcs := after.pcs, singleton := Some(0), built := 1,
                           returned := s.returned + [Result(t, Some(0))])
  {
    hide Run, Steps;
    SlowStart(s, t, false, 6);
    var building := s.(pcs := s.pcs[t := Building], holder := Some(t));
    var s4 := Step(building, t, false);
    var s5 := Step(s4, t, false);
    RunStep(building, t, false, 3);
    RunStep(s4, t, false, 2);
    RunStep(s5, t, false, 1);
    NoSteps(Step(s5, t, false), t, false);
  }

  lemma InstanceIsZero(s: State)
    requires Inv(s)
    ensures s.singleton == None || s.singleton == Some(0)
    ensures s.singleton == None && s.holder == None ==> s.built == 0
  {
  }

  lemma NoSteps(s: State, t: nat, fails: bool)
    ensures Run(s, Steps(t, fails, 0)) == s
  {
  }

  /** The steps a call has still to make, at most. */
  function Rank(pc: Pc): nat {
    match pc
    case Outside => 0
    case SawUnlocked => 1
    case SawLocked => 1
    case Published => 1
    case Publishing(_) => 2
    case Building => 3
    case Checking => 4
    case WantsLock => 5
  }

  /** A step of a call under way, which is not waiting for the lock. */
  predicate Moves(s: State, turn: Turn) {
    At(s, turn.thread) != Outside && Step(s, turn.thread, turn.fails) != s
  }

  predicate AllMove(s: State, schedule: seq<Turn>)
    decreases schedule
  {
    schedule == [] ||
    (Moves(s, schedule[0]) && AllMove(Step(s, schedule[0].thread, schedule[0].fails), schedule[1..]))
  }

  function TotalRank(s: State, n: nat): nat {
    if n == 0 then 0 else TotalRank(s, n - 1) + Rank(At(s, n - 1))
  }

  lemma MoveDescends(s: State, turn: Turn)
    requires Moves(s, turn)
    ensures var after := Step(s, turn.thread, turn.fails);
            && Rank(At(after, turn.thread)) < Rank(At(s, turn.thread))
            && forall u: nat :: u != turn.thread ==> At(after, u) == At(s, u)
  {
  }

  lemma {:induction false} TotalDescends(s: State, turn: Turn, n: nat)
    requires Moves(s, turn)
    ensures var after := Step(s, turn.thread, turn.fails);
            if turn.thread < n then TotalRank(after, n) < TotalRank(s, n) else TotalRank(after, n) == TotalRank(s, n)
  {
    hide Step, Moves, Rank, At;
    if n > 0 {
      TotalDescends(s, turn, n - 1);
      MoveDescends(s, turn);
    }
  }

  lemma {:induction false} RankIsBounded(s: State, n: nat)
    ensures TotalRank(s, n) <= 5 * n
  {
    if n > 0 {
      RankIsBounded(s, n - 1);
    }
  }

  /** No deadlock: while a call is under way, some call can move. */
  lemma SomeCallMoves(s: State, t: nat)
    requires Inv(s) && At(s, t) != Outside
    ensures exists turn :: Moves(s, turn)
  {
    var u := if At(s, t).WantsLock? && s.holder != None then s.holder.value else t;
    assert Fits(s, At(s, u)) && (HoldsLock(At(s, u)) <==> s.holder == Some(u));
    assert At(s, u) != Outside;
    StuckOnlyAtTheLock(s, u);
    assert Moves(s, Turn(u, false));
  }

  lemma StuckOnlyAtTheLock(s: State, u: nat)
    requires At(s, u) != Outside && !(At(s, u).WantsLock? && s.holder != None)
    ensures Step(s, u, false) != s
  {
    assert At(Step(s, u, false), u) != At(s, u);
  }

  /** Calls end: however the threads are scheduled, the calls under way make at most five more steps
      each, and when none of them can move any more, all have ended. */
  lemma {:induction false} EveryCallEnds(s: State, schedule: seq<Turn>, n: nat)
    requires Inv(s) && (forall t: nat :: t >= n ==> At(s, t) == Outside)
    requires AllMove(s, schedule)
    ensures |schedule| <= TotalRank(s, n) <= 5 * n
    ensures (forall turn :: !Moves(Run(s, schedule), turn)) ==> forall t: nat :: At(Run(s, schedule), t) == Outside
    decreases schedule
  {
    hide Step, At, Inv, Moves, TotalRank;
    RankIsBounded(s, n);
    if schedule != [] {
      var turn := schedule[0];
      var after := Step(s, turn.thread, turn.fails);
      InACall(s, turn, n);
      StepKeepsInv(s, turn.thread, turn.fails);
      MoveDescends(s, turn);
      TotalDescends(s, turn, n);
      EveryCallEnds(after, schedule[1..], n);
    } else {
      forall t: nat | (forall turn :: !Moves(s, turn))
        ensures At(s, t) == Outside
      {
        if At(s, t) != Outside {
          SomeCallMoves(s, t);
        }
      }
    }
  }

  lemma InACall(s: State, turn: Turn, n: nat)
    requires Moves(s, turn) && forall t: nat :: t >= n ==> At(s, t) == Outside
    ensures turn.thread < n
  {
  }

  /** A call ends by returning the one backend, unless it is its constructor that raises. */
  lemma EndsWithTheBackend(s: State, turn: Turn)
    requires Inv(s) && Moves(s, turn) && At(Step(s, turn.thread, turn.fails), turn.thread) == Outside
    ensures Step(s, turn.thread, turn.fails).returned ==
            if At(s, turn.thread).Building? then s.returned else s.returned + [Result(turn.thread, Some(0))]
    ensures At(s, turn.thread).Building? ==> turn.fails
  {
    assert Fits(s, At(s, turn.thread));
  }
}

/** The rate limit on geolocation requests (`_do_geo_lookup`, manyfaced/common/geolocate.py): 45 per
    minute, kept by sleeping until 60/45 s after the last completed lookup. The timestamp is shared
    without a lock by every thread that looks addresses up. The clock is exact, a sleep lasts at
    least as long as asked, and clock and timestamp are read, or stored, at one moment. */
module GeoRate {
  const DELAY: real := 60.0 / 45.0
  const WINDOW: real := 60.0
  const LIMIT: nat := 45

  // -------------------------------------------------------------------------
  // Lookups of several threads
  // -------------------------------------------------------------------------

  /** A thread calls, and sleeps for `slept` if it has to; later its request ends. `raises` is the
      outcome the request of this call will have. */
  datatype Event =
    | Call(thread: nat, at: real, slept: real, raises: bool)
    | Finish(thread: nat, at: real)

  /** A lookup under way: when its request goes out, and whether it will raise. */
  datatype Flight = Flight(start: real, raises: bool)

  /** `last` is `_last_geo_lookup_time`, `now` the present. */
  datatype State = State(last: real, now: real, flights: map<nat, Flight>)

  const INITIAL := State(0.0, 0.0, map[])

  function Wait(at: real, last: real): real {
    if at - last < DELAY then DELAY - (at - last) else 0.0
  }

  /** When the request of a call goes out. */
  function Start(e: Event, last: real): real
    requires e.Call?
  {
    if e.at - last < DELAY then e.at + e.slept else e.at
  }

  predicate Enabled(s: State, e: Event) {
    match e
    case Call(thread, at, slept, _) => at >= s.now && thread !in s.flights && slept >= Wait(at, s.last)
    case Finish(thread, at) => at >= s.now && thread in s.flights && at >= s.flights[thread].start
  }

  /** The timestamp moves only when the request did not raise. */
  function Step(s: State, e: Event): State {
    match e
    case Call(thread, at, _, raises) => State(s.last, at, s.flights[thread := Flight(Start(e, s.last), raises)])
    case Finish(thread, at) =>
      State(if thread in s.flights && !s.flights[thread].raises then at else s.last, at, s.flights - {thread})
  }

  predicate Possible(s: State, events: seq<Event>)
    decreases events
  {
    events != [] ==> Enabled(s, events[0]) && Possible(Step(s, events[0]), events[1..])
  }

  predicate OfThreads(events: seq<Event>, n: nat) {
    forall e :: e in events ==> e.thread < n
  }

  /** When the requests go out, in the order of the calls. */
  function Starts(s: State, events: seq<Event>): seq<real>
    decreases events
  {
    if events == [] then []
    else (if events[0].Call? then [Start(events[0], s.last)] else []) + Starts(Step(s, events[0]), events[1..])
  }

  predicate Completes(s: State, e: Event) {
    e.Finish? && e.thread in s.flights && !s.flights[e.thread].raises
  }

  /** The moments at which requests completed without raising, over all threads. */
  function Completions(s: State, events: seq<Event>): seq<real>
    decreases events
  {
    if events == [] then []
    else (if Completes(s, events[0]) then [events[0].at] else []) + Completions(Step(s, events[0]), events[1..])
  }

  function CompletionsOf(s: State, events: seq<Event>, thread: nat): seq<real>
    decreases events
  {
    if events == [] then []
    else
      (if Completes(s, events[0]) && events[0].thread == thread then [events[0].at] else []) +
      CompletionsOf(Step(s, events[0]), events[1..], thread)
  }

  /** The outcomes of the lookups, in the order of the calls. */
  function Outcomes(events: seq<Event>): seq<bool> {
    if events == [] then []
    else (if events[0].Call? then [events[0].raises] else []) + Outcomes(events[1..])
  }

  /** The shared timestamp, and what the threads inside `_do_geo_lookup` keep to themselves. */
  class Limiter {
    var lastGeoLookupTime: real
    var flights: map<nat, Flight>
    ghost var now: real

    ghost function Contents(): State
      reads this
    {
      State(lastGeoLookupTime, now, flights)
    }

    constructor ()
      ensures Contents() == INITIAL
    {
      lastGeoLookupTime, flights, now := 0.0, map[], 0.0;
    }

    /** Up to the request: the clock and the timestamp are read, and the thread sleeps if the last
        completion is too recent. */
    method BeginLookup(thread: nat, at: real, slept: real, raises: bool) returns (start: real)
      requires Enabled(Contents(), Call(thread, at, slept, raises))
      modifies this
      ensures Contents() == Step(old(Contents()), Call(thread, at, slept, raises))
      ensures start >= at && start >= old(lastGeoLookupTime) + DELAY && flights[thread].start == start
    {
      var elapsed := at - lastGeoLookupTime;
      start := at;
      if elapsed < DELAY {
        start := at + slept;
      }
      flights := flights[thread := Flight(start, raises)];
      now := at;
    }

    /** From the end of the request on. */
    method EndLookup(thread: nat, at: real)
      requires Enabled(Contents(), Finish(thread, at))
      modifies this
      ensures Contents() == Step(old(Contents()), Finish(thread, at))
    {
      if !flights[thread].raises {
        lastGeoLookupTime := at;
      }
      flights := flights - {thread};
      now := at;
    }
  }

  // -------------------------------------------------------------------------
  // Spaced moments in a window
  // -------------------------------------------------------------------------

  /** Members of `s` inside the half-open minute that starts at `w`. */
  function InWindow(s: seq<real>, w: real): nat {
    if s == [] then 0
    else InWindow(s[1..], w) + if w <= s[0] < w + WINDOW then 1 else 0
  }

  /** Each element comes at least DELAY after the one before it. */
  predicate Spaced(s: seq<real>) {
    forall i :: 0 <= i < |s| - 1 ==> s[i + 1] >= s[i] + DELAY
  }

  lemma {:induction false} NoneAfterWindow(s: seq<real>, w: real)
    requires Spaced(s) && (s == [] || s[0] >= w + WINDOW)
    ensures InWindow(s, w) == 0
  {
    if |s| > 1 {
      assert s[1] >= s[0] + DELAY;
      assert forall i :: 0 <= i < |s[1..]| ==> s[1..][i] == s[i + 1];
      NoneAfterWindow(s[1..], w);
    }
  }

  /** From an element inside the window, the rest of the window holds at most its length over
      DELAY, plus one. */
  lemma {:induction false} WindowFromInside(s: seq<real>, w: real)
    requires Spaced(s) && s != [] && w <= s[0] < w + WINDOW
    ensures (InWindow(s, w) - 1) as real * DELAY < w + WINDOW - s[0]
    decreases |s|
  {
    assert forall i :: 0 <= i < |s[1..]| ==> s[1..][i] == s[i + 1];
    if |s| > 1 && s[1] < w + WINDOW {
      assert s[1] >= s[0] + DELAY;
      WindowFromInside(s[1..], w);
    } else {
      NoneAfterWindow(s[1..], w);
    }
  }

  lemma {:induction false} SpacedFitsTheLimit(s: seq<real>, w: real)
    requires Spaced(s)
    ensures InWindow(s, w) <= LIMIT
  {
    if s != [] {
      assert forall i :: 0 <= i < |s[1..]| ==> s[1..][i] == s[i + 1];
      if w <= s[0] < w + WINDOW {
        WindowFromInside(s, w);
      } else {
        SpacedFitsTheLimit(s[1..], w);
      }
    }
  }

  lemma {:induction false} WindowIsBoundedByLength(s: seq<real>, w: real)
    ensures InWindow(s, w) <= |s|
  {
    if s != [] {
      WindowIsBoundedByLength(s[1..], w);
    }
  }

  lemma SpacedFront(x: real, rest: seq<real>)
    requires Spaced(rest) && (rest != [] ==> rest[0] >= x + DELAY)
    ensures Spaced([x] + rest)
  {
    var all := [x] + rest;
    assert forall i :: 1 <= i < |all| ==> all[i] == rest[i - 1];
  }

  // -------------------------------------------------------------------------
  // Completions
  // -------------------------------------------------------------------------

  /** The timestamp a thread reads is never before its own last completion, so its completions are
      spaced whatever the others do. */
  lemma {:induction false} ThreadIsSpaced(s: State, events: seq<Event>, thread: nat)
    requires Possible(s, events) && s.last <= s.now
    ensures var own := CompletionsOf(s, events, thread);
            && Spaced(own)
            && (own != [] ==> own[0] >= s.now)
            && (own != [] ==> own[0] >= if thread in s.flights then s.flights[thread].start else s.last + DELAY)
    decreases events
  {
    if events != [] {
      var e := events[0];
      var next := Step(s, e);
      ThreadIsSpaced(next, events[1..], thread);
      var rest := CompletionsOf(next, events[1..], thread);
      hide Possible;
      if Completes(s, e) && e.thread == thread {
        SpacedFront(e.at, rest);
        assert CompletionsOf(s, events, thread) == [e.at] + rest;
      } else {
        assert CompletionsOf(s, events, thread) == rest;
      }
    }
  }

  function Sum(s: State, events: seq<Event>, n: nat, w: real): nat {
    if n == 0 then 0 else Sum(s, events, n - 1, w) + InWindow(CompletionsOf(s, events, n - 1), w)
  }

  lemma {:induction false} SumOfNone(s: State, n: nat, w: real)
    ensures Sum(s, [], n, w) == 0
  {
    if n > 0 {
      SumOfNone(s, n - 1, w);
    }
  }

  lemma {:induction false} SumStep(s: State, events: seq<Event>, n: nat, w: real)
    requires events != []
    ensures var e := events[0];
            Sum(s, events, n, w) == Sum(Step(s, e), events[1..], n, w) +
                                    if Completes(s, e) && e.thread < n && w <= e.at < w + WINDOW then 1 else 0
  {
    hide Step, Completes;
    if n > 0 {
      SumStep(s, events, n - 1, w);
      var own, rest := CompletionsOf(s, events, n - 1), CompletionsOf(Step(s, events[0]), events[1..], n - 1);
      if Completes(s, events[0]) && events[0].thread == n - 1 {
        assert own[1..] == rest;
      } else {
        assert own == rest;
      }
    }
  }

  /** Every completion is one thread's. */
  lemma {:induction false} CompletionsAreOfThreads(s: State, events: seq<Event>, n: nat, w: real)
    requires OfThreads(events, n)
    ensures InWindow(Completions(s, events), w) == Sum(s, events, n, w)
    decreases events
  {
    hide Step, Completes, Sum;
    if events == [] {
      SumOfNone(s, n, w);
    } else {
      var e, rest := events[0], Completions(Step(s, events[0]), events[1..]);
      assert e in events && OfThreads(events[1..], n);
      CompletionsAreOfThreads(Step(s, e), events[1..], n, w);
      SumStep(s, events, n, w);
      if Completes(s, e) {
        assert Completions(s, events)[1..] == rest;
      } else {
        assert Completions(s, events) == rest;
      }
    }
  }

  lemma {:induction false} SumIsBounded(s: State, events: seq<Event>, n: nat, w: real)
    requires Possible(s, events) && s.last <= s.now
    ensures Sum(s, events, n, w) <= LIMIT * n
  {
    hide Possible, CompletionsOf;
    if n > 0 {
      SumIsBounded(s, events, n - 1, w);
      ThreadIsSpaced(s, events, n - 1);
      SpacedFitsTheLimit(CompletionsOf(s, events, n - 1), w);
    }
  }

  /** In every interleaving of n threads, whatever the call times and durations, a half-open minute
      sees at most 45 lookups complete for each thread. */
  lemma AtMost45CompletionsAThread(n: nat, events: seq<Event>, w: real)
    requires Possible(INITIAL, events) && OfThreads(events, n)
    ensures InWindow(Completions(INITIAL, events), w) <= LIMIT * n
  {
    CompletionsAreOfThreads(INITIAL, events, n, w);
    SumIsBounded(INITIAL, events, n, w);
  }

  // -------------------------------------------------------------------------
  // Requests, as opposed to completions
  // -------------------------------------------------------------------------

  /** The documented limit, on requests sent: it must hold for every timing of the lookups. */
  ghost predicate RequestsStayUnderLimit(n: nat, raises: seq<bool>) {
    forall events, w ::
      Possible(INITIAL, events) && OfThreads(events, n) && Outcomes(events) == raises ==>
        InWindow(Starts(INITIAL, events), w) <= LIMIT
  }

  /** Every lookup but the last one completes. */
  predicate NoneRaisesEarly(raises: seq<bool>) {
    forall i :: 0 <= i < |raises| - 1 ==> !raises[i]
  }

  lemma {:induction false} OneStartACall(s: State, events: seq<Event>)
    ensures |Starts(s, events)| == |Outcomes(events)|
    decreases events
  {
    if events != [] {
      OneStartACall(Step(s, events[0]), events[1..]);
    }
  }

  /** One thread on its own: its requests are spaced as long as the lookups complete. */
  lemma {:induction false} SoloIsSpaced(s: State, events: seq<Event>)
    requires Possible(s, events) && OfThreads(events, 1) && NoneRaisesEarly(Outcomes(events))
    requires 0 in s.flights && s.flights[0].raises ==> Outcomes(events) == []
    ensures var starts := Starts(s, events);
            && Spaced(starts)
            && (starts != [] ==> starts[0] >= DELAY + if 0 in s.flights then s.flights[0].start else s.last)
    decreases events
  {
    hide Possible, Starts, Outcomes, Spaced;
    if events == [] {
      NothingHappens(s);
    } else {
      var e, later := events[0], events[1..];
      assert [e] + later == events;
      Unfold(s, e, later);
      assert e in events && OfThreads(later, 1);
      var next := Step(s, e);
      OneStartACall(s, events);
      if e.Call? {
        assert |Outcomes(later)| > 0 ==> !Outcomes(events)[0];
        assert forall i :: 0 <= i < |Outcomes(later)| ==> Outcomes(later)[i] == Outcomes(events)[i + 1];
        SoloIsSpaced(next, later);
        SpacedFront(Start(e, s.last), Starts(next, later));
      } else {
        SoloIsSpaced(next, later);
      }
    }
  }

  // -------------------------------------------------------------------------
  // One thread and a lookup that raises
  // -------------------------------------------------------------------------

  /** One thread calls as soon as the limiter lets it, with instant requests: a raise costs no time,
      a completion one DELAY. */
  function Burst(raises: seq<bool>, at: real): seq<Event> {
    if raises == [] then []
    else
      [Call(0, at, 0.0, raises[0]), Finish(0, at)] +
      Burst(raises[1..], if raises[0] then at else at + DELAY)
  }

  /** The state between two lookups of a burst. */
  predicate Idle(s: State, at: real) {
    s.flights == map[] && at >= s.last + DELAY && at >= s.now
  }

  /** Calling and finishing at one moment, with no need to sleep. */
  lemma InstantLookup(s: State, at: real, raises: bool, rest: seq<Event>)
    requires Idle(s, at)
    ensures var events := [Call(0, at, 0.0, raises), Finish(0, at)] + rest;
            var next := State(if raises then s.last else at, at, map[]);
            && (Possible(next, rest) ==> Possible(s, events))
            && Starts(s, events) == [at] + Starts(next, rest)
            && Outcomes(events) == [raises] + Outcomes(rest)
  {
    hide Possible, Starts, Outcomes;
    var call, finish := Call(0, at, 0.0, raises), Finish(0, at);
    var between := Step(s, call);
    Unfold(s, call, [finish] + rest);
    Unfold(between, finish, rest);
    assert Step(between, finish).flights == map[];
    assert [call] + ([finish] + rest) == [call, finish] + rest;
  }

  lemma Unfold(s: State, e: Event, rest: seq<Event>)
    ensures Possible(s, [e] + rest) <==> Enabled(s, e) && Possible(Step(s, e), rest)
    ensures Starts(s, [e] + rest) == if e.Call? then [Start(e, s.last)] + Starts(Step(s, e), rest)
                                     else Starts(Step(s, e), rest)
    ensures Outcomes([e] + rest) == if e.Call? then [e.raises] + Outcomes(rest) else Outcomes(rest)
  {
    hide Enabled, Step, Start;
    assert ([e] + rest)[1..] == rest;
  }

  lemma {:induction false} BurstIsPossible(s: State, raises: seq<bool>, at: real)
    requires Idle(s, at)
    ensures Possible(s, Burst(raises, at)) && OfThreads(Burst(raises, at), 1) && Outcomes(Burst(raises, at)) == raises
    decreases raises
  {
    hide Possible, Outcomes;
    if raises == [] {
      NothingHappens(s);
    } else {
      var next := State(if raises[0] then s.last else at, at, map[]);
      var rest := Burst(raises[1..], if raises[0] then at else at + DELAY);
      InstantLookup(s, at, raises[0], rest);
      BurstIsPossible(next, raises[1..], if raises[0] then at else at + DELAY);
      assert [raises[0]] + raises[1..] == raises;
    }
  }

  lemma NothingHappens(s: State)
    ensures Possible(s, []) && Outcomes([]) == [] && Starts(s, []) == [] && Spaced([])
  {
  }

  function CompletedIn(raises: seq<bool>): nat {
    if raises == [] then 0 else CompletedIn(raises[1..]) + if raises[0] then 0 else 1
  }

  /** A burst stays inside the window as long as its completions do. */
  lemma {:induction false} BurstFillsWindow(s: State, raises: seq<bool>, at: real, w: real, n: nat)
    requires Idle(s, at) && n <= |raises| && w <= at
    requires n > 0 ==> at + CompletedIn(raises[..n - 1]) as real * DELAY < w + WINDOW
    ensures InWindow(Starts(s, Burst(raises, at)), w) >= n
    decreases n
  {
    hide Possible, Outcomes, Starts;
    if n > 0 {
      var next := State(if raises[0] then s.last else at, at, map[]);
      var later := if raises[0] then at else at + DELAY;
      InstantLookup(s, at, raises[0], Burst(raises[1..], later));
      var starts := Starts(s, Burst(raises, at));
      assert starts[1..] == Starts(next, Burst(raises[1..], later));
      if n > 1 {
        assert raises[..n - 1][1..] == raises[1..][..n - 2];
        BurstFillsWindow(next, raises[1..], later, w, n - 1);
      }
    }
  }

  lemma {:induction false} RaiseCompletesLess(raises: seq<bool>, i: nat)
    requires i < |raises| && raises[i]
    ensures CompletedIn(raises) < |raises|
  {
    CompletedAtMostAll(raises[1..]);
    if i > 0 {
      RaiseCompletesLess(raises[1..], i - 1);
    }
  }

  lemma {:induction false} CompletedAtMostAll(raises: seq<bool>)
    ensures CompletedIn(raises) <= |raises|
  {
    if raises != [] {
      CompletedAtMostAll(raises[1..]);
    }
  }

  /** An early raise lets 46 requests go out within one minute. */
  lemma {:induction false} OverfullWindow(s: State, raises: seq<bool>, at: real, i: nat) returns (w: real)
    requires Idle(s, at) && |raises| > LIMIT && i < |raises| - 1 && raises[i]
    ensures InWindow(Starts(s, Burst(raises, at)), w) > LIMIT
    decreases i
  {
    hide Possible, Outcomes, Starts;
    if i < LIMIT {
      w := at;
      assert raises[..LIMIT][i];
      RaiseCompletesLess(raises[..LIMIT], i);
      BurstFillsWindow(s, raises, at, w, LIMIT + 1);
    } else {
      var next := State(if raises[0] then s.last else at, at, map[]);
      var later := if raises[0] then at else at + DELAY;
      InstantLookup(s, at, raises[0], Burst(raises[1..], later));
      var starts := Starts(s, Burst(raises, at));
      assert starts[1..] == Starts(next, Burst(raises[1..], later));
      w := OverfullWindow(next, raises[1..], later, i - 1);
    }
  }

  // -------------------------------------------------------------------------
  // Two threads
  // -------------------------------------------------------------------------

  /** Two threads call together every DELAY, read the same timestamp, and send two requests. */
  function Pairs(raises: seq<bool>, at: real): seq<Event> {
    if |raises| < 2 then Burst(raises, at)
    else
      [Call(0, at, 0.0, raises[0]), Call(1, at, 0.0, raises[1]), Finish(0, at), Finish(1, at)] +
      Pairs(raises[2..], at + DELAY)
  }

  lemma InstantPair(s: State, at: real, one: bool, two: bool, rest: seq<Event>)
    requires Idle(s, at)
    ensures var events := [Call(0, at, 0.0, one), Call(1, at, 0.0, two), Finish(0, at), Finish(1, at)] + rest;
            var next := State(if one && two then s.last else at, at, map[]);
            && (Possible(next, rest) ==> Possible(s, events))
            && Starts(s, events) == [at, at] + Starts(next, rest)
            && Outcomes(events) == [one, two] + Outcomes(rest)
  {
    hide Possible, Starts, Outcomes, Enabled, Step, Start;
    var e3 := [Finish(1, at)] + rest;
    var e2 := [Finish(0, at)] + e3;
    var e1 := [Call(1, at, 0.0, two)] + e2;
    var s1, s2, s3 := PairStates(s, at, one, two);
    Unfold(s, Call(0, at, 0.0, one), e1);
    Unfold(s1, Call(1, at, 0.0, two), e2);
    Unfold(s2, Finish(0, at), e3);
    Unfold(s3, Finish(1, at), rest);
    var next := State(if one && two then s.last else at, at, map[]);
    assert [Call(0, at, 0.0, one)] + e1 ==
           [Call(0, at, 0.0, one), Call(1, at, 0.0, two), Finish(0, at), Finish(1, at)] + rest;
    assert [at] + ([at] + Starts(next, rest)) == [at, at] + Starts(next, rest);
    assert [one] + ([two] + Outcomes(rest)) == [one, two] + Outcomes(rest);
  }

  lemma PairStates(s: State, at: real, one: bool, two: bool) returns (s1: State, s2: State, s3: State)
    requires Idle(s, at)
    ensures Enabled(s, Call(0, at, 0.0, one)) && s1 == Step(s, Call(0, at, 0.0, one))
    ensures Enabled(s1, Call(1, at, 0.0, two)) && s2 == Step(s1, Call(1, at, 0.0, two))
    ensures Enabled(s2, Finish(0, at)) && s3 == Step(s2, Finish(0, at))
    ensures Enabled(s3, Finish(1, at))
    ensures Step(s3, Finish(1, at)) == State(if one && two then s.last else at, at, map[])
    ensures Start(Call(0, at, 0.0, one), s.last) == at == Start(Call(1, at, 0.0, two), s1.last)
  {
    s1 := State(s.last, at, map[0 := Flight(at, one)]);
    s2 := State(s.last, at, map[0 := Flight(at, one), 1 := Flight(at, two)]);
    s3 := State(if one then s.last else at, at, map[1 := Flight(at, two)]);
    assert s2.flights - {0} == s3.flights && s3.flights - {1} == map[];
  }

  lemma IdleAgain(s: State, at: real, kept: bool)
    requires Idle(s, at)
    ensures Idle(State(if kept then s.last else at, at, map[]), at + DELAY)
  {
  }

  lemma {:induction false} PairsArePossible(s: State, raises: seq<bool>, at: real)
    requires Idle(s, at)
    ensures Possible(s, Pairs(raises, at)) && OfThreads(Pairs(raises, at), 2) && Outcomes(Pairs(raises, at)) == raises
    decreases raises
  {
    hide Possible, Outcomes, Idle;
    if |raises| < 2 {
      BurstIsPossible(s, raises, at);
      assert OfThreads(Burst(raises, at), 1);
    } else {
      var next := State(if raises[0] && raises[1] then s.last else at, at, map[]);
      InstantPair(s, at, raises[0], raises[1], Pairs(raises[2..], at + DELAY));
      assert Idle(next, at + DELAY) by {
        IdleAgain(s, at, raises[0] && raises[1]);
      }
      PairsArePossible(next, raises[2..], at + DELAY);
      assert [raises[0], raises[1]] + raises[2..] == raises;
    }
  }

  lemma {:induction false} PairsFillWindow(s: State, raises: seq<bool>, at: real, w: real, n: nat)
    requires Idle(s, at) && n <= |raises| && w <= at
    requires at + (n / 2) as real * DELAY <= w + WINDOW && n % 2 == 0
    ensures InWindow(Starts(s, Pairs(raises, at)), w) >= n
    decreases n
  {
    hide Possible, Outcomes, Starts;
    if n > 0 {
      var next := State(if raises[0] && raises[1] then s.last else at, at, map[]);
      var rest := Pairs(raises[2..], at + DELAY);
      InstantPair(s, at, raises[0], raises[1], rest);
      var starts := Starts(s, Pairs(raises, at));
      assert starts[1..] == [at] + Starts(next, rest) && starts[1..][1..] == Starts(next, rest);
      PairsFillWindow(next, raises[2..], at + DELAY, w, n - 2);
    }
  }

  /** The documented limit of 45 requests per minute holds for every timing exactly when there are
      no more than 45 lookups, or a single thread makes them and none but the last one raises. A
      lookup that raises does not move the timestamp, so the next request follows without delay; and
      two threads that call together read the same timestamp and both go ahead. */
  lemma RequestLimitIff(n: nat, raises: seq<bool>)
    ensures RequestsStayUnderLimit(n, raises) <==>
            |raises| <= LIMIT || n == 0 || (n == 1 && NoneRaisesEarly(raises))
  {
    hide Possible, Starts, Outcomes, NoneRaisesEarly, InWindow;
    if n == 0 {
      forall events, w | Possible(INITIAL, events) && OfThreads(events, n) && Outcomes(events) == raises
        ensures InWindow(Starts(INITIAL, events), w) <= LIMIT
      {
        NoThreadNoEvent(events);
        NothingHappens(INITIAL);
        WindowIsBoundedByLength([], w);
      }
    } else if |raises| <= LIMIT || (n == 1 && NoneRaisesEarly(raises)) {
      forall events, w | Possible(INITIAL, events) && OfThreads(events, n) && Outcomes(events) == raises
        ensures InWindow(Starts(INITIAL, events), w) <= LIMIT
      {
        if |raises| <= LIMIT {
          OneStartACall(INITIAL, events);
          WindowIsBoundedByLength(Starts(INITIAL, events), w);
        } else {
          SoloIsSpaced(INITIAL, events);
          SpacedFitsTheLimit(Starts(INITIAL, events), w);
        }
      }
    } else if n == 1 {
      SoloBreaksTheLimit(raises);
    } else {
      PairsArePossible(INITIAL, raises, DELAY);
      PairsFillWindow(INITIAL, raises, DELAY, DELAY, 46);
      assert OfThreads(Pairs(raises, DELAY), n);
    }
  }

  lemma NoThreadNoEvent(events: seq<Event>)
    ensures OfThreads(events, 0) <==> events == []
  {
    if events != [] {
      assert events[0] in events && events[0].thread >= 0;
    }
  }

  lemma SoloBreaksTheLimit(raises: seq<bool>)
    requires |raises| > LIMIT && !NoneRaisesEarly(raises)
    ensures !RequestsStayUnderLimit(1, raises)
  {
    hide Possible, Starts, Outcomes, InWindow;
    var i :| 0 <= i < |raises| - 1 && raises[i];
    var w := OverfullWindow(INITIAL, raises, DELAY, i);
    BurstIsPossible(INITIAL, raises, DELAY);
  }
}

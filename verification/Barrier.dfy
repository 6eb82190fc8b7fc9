/**
 The reusable barrier of 31/barrier.c (the build without DEBUG_POST), as a transition system
 over any number of threads that call `barrier` again and again. A step is one statement;
 the posting loops are stepped one Sem_post at a time.
 */
module Barrier {
  import opened Counting

  /** What a thread does next. */
  datatype PC =
    | Arrive     // Sem_wait(mutex), line 55
    | Inc        // num_arrived += 1
    | TestFull   // if num_arrived == num_threads
    | Post1      // the loop of Sem_post(turnstile1)
    | Unlock1    // Sem_post(mutex)
    | Wait1      // Sem_wait(turnstile1), line 78
    | Point      // the critical point, then Sem_wait(mutex), line 85
    | Dec        // num_arrived -= 1
    | TestEmpty  // if num_arrived == 0
    | Post2      // the loop of Sem_post(turnstile2)
    | Unlock2    // Sem_post(mutex)
    | Wait2      // Sem_wait(turnstile2), line 107

  /** A thread with its loop variable; `passed` counts the turnstiles it has been through (two a round). */
  datatype Thread = Thread(pc: PC, i: nat, passed: nat)

  /** The shared variables; `openings` counts how often a turnstile was opened. The counts are history only. */
  datatype State = State(threads: seq<Thread>, numArrived: int, mutex: nat, turnstile1: nat, turnstile2: nat,
                         openings: nat)

  function Start(n: nat): State {
    State(seq(n, _ => Thread(Arrive, 0, 0)), 0, 1, 0, 0, 0)
  }

  predicate Enabled(s: State, t: nat) {
    && t < |s.threads|
    && (s.threads[t].pc.Arrive? || s.threads[t].pc.Point? ==> s.mutex > 0)
    && (s.threads[t].pc.Wait1? ==> s.turnstile1 > 0)
    && (s.threads[t].pc.Wait2? ==> s.turnstile2 > 0)
  }

  /** The next statement of thread `t`; num_threads is the number of threads. */
  function Step(s: State, t: nat): State
    requires Enabled(s, t)
  {
    var n, x := |s.threads|, s.threads[t];
    match x.pc
    case Arrive => Go(s.(mutex := s.mutex - 1), t, x.(pc := Inc))
    case Inc => Go(s.(numArrived := s.numArrived + 1), t, x.(pc := TestFull))
    case TestFull => if s.numArrived == n then Go(s.(openings := s.openings + 1), t, x.(pc := Post1, i := 0))
                     else Go(s, t, x.(pc := Unlock1))
    case Post1 => if x.i < n then Go(s.(turnstile1 := s.turnstile1 + 1), t, x.(i := x.i + 1))
                  else Go(s, t, x.(pc := Unlock1))
    case Unlock1 => Go(s.(mutex := s.mutex + 1), t, x.(pc := Wait1))
    case Wait1 => Go(s.(turnstile1 := s.turnstile1 - 1), t, x.(pc := Point, passed := x.passed + 1))
    case Point => Go(s.(mutex := s.mutex - 1), t, x.(pc := Dec))
    case Dec => Go(s.(numArrived := s.numArrived - 1), t, x.(pc := TestEmpty))
    case TestEmpty => if s.numArrived == 0 then Go(s.(openings := s.openings + 1), t, x.(pc := Post2, i := 0))
                      else Go(s, t, x.(pc := Unlock2))
    case Post2 => if x.i < n then Go(s.(turnstile2 := s.turnstile2 + 1), t, x.(i := x.i + 1))
                  else Go(s, t, x.(pc := Unlock2))
    case Unlock2 => Go(s.(mutex := s.mutex + 1), t, x.(pc := Wait2))
    case Wait2 => Go(s.(turnstile2 := s.turnstile2 - 1), t, x.(pc := Arrive, passed := x.passed + 1))
  }

  function Go(s: State, t: nat, x: Thread): State
    requires t < |s.threads|
  {
    s.(threads := s.threads[t := x])
  }

  /** The state after a schedule, any sequence of thread names; scheduling a blocked thread changes nothing. */
  ghost function After(n: nat, sched: seq<nat>): (s: State)
    ensures |s.threads| == n
  {
    if sched == [] then Start(n)
    else
      var s, t := After(n, sched[..|sched| - 1]), sched[|sched| - 1];
      if Enabled(s, t) then Step(s, t) else s
  }

  // ---------------------------------------------------------------- what every step keeps

  predicate FirstHalf(pc: PC) { pc.Arrive? || pc.Inc? || pc.TestFull? || pc.Post1? || pc.Unlock1? || pc.Wait1? }
  predicate AfterTest(pc: PC) { pc.Post1? || pc.Unlock1? || pc.Wait1? || pc.Post2? || pc.Unlock2? || pc.Wait2? }
  predicate Posting(x: Thread) { x.pc.Post1? || x.pc.Post2? }

  predicate HoldsMutex(x: Thread) {
    x.pc.Inc? || x.pc.TestFull? || x.pc.Post1? || x.pc.Unlock1? || x.pc.Dec? || x.pc.TestEmpty? || x.pc.Post2?
    || x.pc.Unlock2?
  }

  /** A thread that has not yet been through the turnstile opened last. */
  function Behind(g: nat): Thread -> bool { (x: Thread) => x.passed + 1 == g }

  /** A thread that has counted itself towards the next opening. */
  function Counted(g: nat): Thread -> bool { (x: Thread) => x.passed == g && CountedAt(x.pc) }

  predicate CountedAt(pc: PC) { pc.TestFull? || pc.TestEmpty? || (AfterTest(pc) && !pc.Post1? && !pc.Post2?) }

  /** Every thread is level with the last opening, or one behind it and already counted. */
  predicate InStep(x: Thread, g: nat, n: nat) {
    && (x.passed % 2 == 0 <==> FirstHalf(x.pc))
    && (x.passed == g || (x.passed + 1 == g && AfterTest(x.pc)))
    && (Posting(x) ==> x.passed + 1 == g && x.i <= n)
  }

  ghost predicate AllInStep(s: State) {
    && s.mutex + Count(s.threads, HoldsMutex) == 1
    && forall t :: 0 <= t < |s.threads| ==> InStep(s.threads[t], s.openings, |s.threads|)
  }

  predicate Testing(x: Thread) { x.pc.TestFull? || x.pc.TestEmpty? }

  /** num_arrived counts up to n in even phases and down to 0 in odd ones, and the last to count is testing. */
  ghost predicate Arrivals(s: State) {
    var c := Count(s.threads, Counted(s.openings));
    && s.numArrived == (if s.openings % 2 == 0 then c else |s.threads| - c)
    && (c == |s.threads| ==> exists t :: 0 <= t < |s.threads| && Testing(s.threads[t]))
  }

  /** The open turnstile holds, or will be posted, one token for each thread behind; the other is closed. */
  ghost predicate Tokens(s: State) {
    var behind := Count(s.threads, Behind(s.openings));
    var open := if s.openings % 2 == 0 then s.turnstile2 else s.turnstile1;
    && (if s.openings % 2 == 0 then s.turnstile1 else s.turnstile2) == 0
    && (forall t :: 0 <= t < |s.threads| && Posting(s.threads[t]) ==> open + |s.threads| - s.threads[t].i == behind)
    && ((forall t :: 0 <= t < |s.threads| ==> !Posting(s.threads[t])) ==> open == behind)
  }

  ghost predicate Inv(s: State) {
    AllInStep(s) && Arrivals(s) && Tokens(s)
  }

  /** A thread that is about to open a turnstile finds everybody counted and level. */
  lemma Opening(s: State, t: nat)
    requires Inv(s) && Enabled(s, t) && |s.threads| >= 1 && Step(s, t).openings != s.openings
    ensures forall u :: 0 <= u < |s.threads| ==> s.threads[u].passed == s.openings && CountedAt(s.threads[u].pc)
    ensures s.turnstile1 == s.turnstile2 == 0
    ensures s.openings % 2 == 0 <==> s.threads[t].pc.TestFull?
  {
    assert InStep(s.threads[t], s.openings, |s.threads|);
    CountAll(s.threads, Counted(s.openings));
    assert forall u :: 0 <= u < |s.threads| ==> Counted(s.openings)(s.threads[u]);
    forall u | 0 <= u < |s.threads| ensures !Behind(s.openings)(s.threads[u]) && !Posting(s.threads[u]) {
      assert InStep(s.threads[u], s.openings, |s.threads|);
    }
    CountNone(s.threads, Behind(s.openings));
  }

  lemma OneHolder(s: State, t: nat)
    requires AllInStep(s) && t < |s.threads| && HoldsMutex(s.threads[t])
    ensures forall u :: 0 <= u < |s.threads| && u != t ==> !HoldsMutex(s.threads[u])
  {
    Unique(s.threads, HoldsMutex);
  }

  /** Only threads that are behind get through a turnstile. */
  lemma ThroughOpenTurnstile(s: State, t: nat)
    requires Inv(s) && Enabled(s, t) && (s.threads[t].pc.Wait1? || s.threads[t].pc.Wait2?)
    ensures s.threads[t].passed + 1 == s.openings
  {
    assert InStep(s.threads[t], s.openings, |s.threads|);
  }

  lemma InStepKept(s: State, t: nat)
    requires Inv(s) && Enabled(s, t) && |s.threads| >= 1
    ensures AllInStep(Step(s, t))
  {
    hide Count, Arrivals;
    var s', x := Step(s, t), s.threads[t];
    CountUpdate(s.threads, t, s'.threads[t], HoldsMutex);
    assert InStep(x, s.openings, |s.threads|);
    if s'.openings != s.openings {
      Opening(s, t);
      OneHolder(s, t);
    }
    forall u | 0 <= u < |s'.threads| ensures InStep(s'.threads[u], s'.openings, |s'.threads|) {
      assert InStep(s.threads[u], s.openings, |s.threads|);
    }
  }

  lemma ArrivalsKept(s: State, t: nat)
    requires Inv(s) && Enabled(s, t) && |s.threads| >= 1
    ensures Arrivals(Step(s, t))
  {
    hide Count, Tokens;
    var s', x := Step(s, t), s.threads[t];
    assert InStep(x, s.openings, |s.threads|);
    if s'.openings != s.openings {
      Opening(s, t);
      forall u | 0 <= u < |s'.threads| ensures !Counted(s'.openings)(s'.threads[u]) {
      }
      CountNone(s'.threads, Counted(s'.openings));
    } else {
      if x.pc.Wait1? || x.pc.Wait2? { ThroughOpenTurnstile(s, t); }
      CountUpdate(s.threads, t, s'.threads[t], Counted(s.openings));
      if Count(s'.threads, Counted(s.openings)) == |s.threads| {
        LastTester(s, t);
      }
    }
  }

  /** Whoever completes the count is at its test. */
  lemma LastTester(s: State, t: nat)
    requires Inv(s) && Enabled(s, t) && |s.threads| >= 1 && Step(s, t).openings == s.openings
    requires Count(Step(s, t).threads, Counted(s.openings)) == |s.threads|
    requires s.threads[t].pc.Wait1? || s.threads[t].pc.Wait2? ==> s.threads[t].passed + 1 == s.openings
    ensures exists u :: 0 <= u < |s.threads| && Testing(Step(s, t).threads[u])
  {
    hide Count, Tokens;
    var s', x := Step(s, t), s.threads[t];
    assert InStep(x, s.openings, |s.threads|);
    CountUpdate(s.threads, t, s'.threads[t], Counted(s.openings));
    if Count(s.threads, Counted(s.openings)) == |s.threads| {
      var u :| 0 <= u < |s.threads| && Testing(s.threads[u]);
      assert InStep(s.threads[u], s.openings, |s.threads|);
      assert u != t;
      assert s'.threads[u] == s.threads[u];
    } else {
      assert Testing(s'.threads[t]);
    }
  }

  /** A turnstile is opened: everybody is behind it, and all tokens are still to be posted. */
  lemma TokensOpened(s: State, t: nat)
    requires Inv(s) && Enabled(s, t) && |s.threads| >= 1 && Step(s, t).openings != s.openings
    ensures Tokens(Step(s, t))
  {
    hide Count, Arrivals;
    var s' := Step(s, t);
    Opening(s, t);
    OneHolder(s, t);
    CountAll(s'.threads, Behind(s'.openings));
    assert forall u :: 0 <= u < |s'.threads| ==> Behind(s'.openings)(s'.threads[u]);
    assert Posting(s'.threads[t]);
  }

  /** A token is posted, or the posting ends. */
  lemma TokensPosted(s: State, t: nat)
    requires Inv(s) && Enabled(s, t) && Posting(s.threads[t])
    ensures Tokens(Step(s, t))
  {
    hide Count, Arrivals;
    var s' := Step(s, t);
    assert InStep(s.threads[t], s.openings, |s.threads|);
    OneHolder(s, t);
    CountUpdate(s.threads, t, s'.threads[t], Behind(s.openings));
  }

  /** Nobody starts or ends posting: a token is taken by a thread that was behind, or nothing changes. */
  lemma TokensTaken(s: State, t: nat)
    requires Inv(s) && Enabled(s, t) && Step(s, t).openings == s.openings && !Posting(s.threads[t])
    ensures Tokens(Step(s, t))
  {
    hide Count, Arrivals;
    var s', x := Step(s, t), s.threads[t];
    assert InStep(x, s.openings, |s.threads|);
    CountUpdate(s.threads, t, s'.threads[t], Behind(s.openings));
    assert forall u :: 0 <= u < |s.threads| && u != t ==> s'.threads[u] == s.threads[u];
    assert !Posting(s'.threads[t]);
  }

  lemma TokensKept(s: State, t: nat)
    requires Inv(s) && Enabled(s, t) && |s.threads| >= 1
    ensures Tokens(Step(s, t))
  {
    hide Inv, Tokens, Step;
    if Step(s, t).openings != s.openings {
      TokensOpened(s, t);
    } else if Posting(s.threads[t]) {
      TokensPosted(s, t);
    } else {
      TokensTaken(s, t);
    }
  }

  lemma {:induction false} Reachable(n: nat, sched: seq<nat>)
    requires n >= 1
    ensures Inv(After(n, sched))
  {
    if sched == [] {
      var ts := Start(n).threads;
      CountNone(ts, HoldsMutex);
      CountNone(ts, Counted(0));
      CountNone(ts, Behind(0));
    } else {
      var front, t := sched[..|sched| - 1], sched[|sched| - 1];
      Reachable(n, front);
      var s := After(n, front);
      if Enabled(s, t) {
        InStepKept(s, t);
        ArrivalsKept(s, t);
        TokensKept(s, t);
      }
    }
  }

  // ---------------------------------------------------------------- the theorems

  /** Thread x has arrived at the barrier in round r (it has executed num_arrived += 1). */
  predicate Arrived(x: Thread, r: nat) {
    x.passed > 2 * r || (x.passed == 2 * r && (x.pc.TestFull? || x.pc.Post1? || x.pc.Unlock1? || x.pc.Wait1?))
  }

  /** No thread passes the critical point of a round before all have arrived in that round. */
  lemma AllArrivedFirst(n: nat, sched: seq<nat>, p: nat, q: nat, r: nat)
    requires n >= 1 && p < n && q < n
    requires After(n, sched).threads[p].passed >= 2 * r + 1
    ensures Arrived(After(n, sched).threads[q], r)
  {
    hide After, Count, Arrivals, Tokens;
    Reachable(n, sched);
    var s := After(n, sched);
    assert InStep(s.threads[p], s.openings, n) && InStep(s.threads[q], s.openings, n);
  }

  /** No thread leaves round r before all have passed its critical point, so nobody is more than one round ahead. */
  lemma AtMostOneRoundAhead(n: nat, sched: seq<nat>, p: nat, q: nat, r: nat)
    requires n >= 1 && p < n && q < n
    ensures var x, y := After(n, sched).threads[p], After(n, sched).threads[q];
            && (x.passed >= 2 * r + 2 ==> y.passed >= 2 * r + 1)
            && x.passed <= y.passed + 1 && x.passed / 2 <= y.passed / 2 + 1
  {
    hide After, Count, Arrivals, Tokens;
    Reachable(n, sched);
    var s := After(n, sched);
    assert InStep(s.threads[p], s.openings, n) && InStep(s.threads[q], s.openings, n);
  }

  /** No deadlock: while every thread keeps calling `barrier`, some thread can always step. */
  lemma Progress(n: nat, sched: seq<nat>) returns (t: nat)
    requires n >= 1
    ensures Enabled(After(n, sched), t)
  {
    hide After, Inv, Enabled;
    Reachable(n, sched);
    t := SomeEnabled(After(n, sched));
  }

  lemma SomeEnabled(s: State) returns (t: nat)
    requires Inv(s) && |s.threads| >= 1
    ensures Enabled(s, t)
  {
    hide Count, Arrivals;
    if s.mutex == 0 {
      t := FindCounted(s.threads, HoldsMutex);
    } else if Count(s.threads, Behind(s.openings)) >= 1 {
      t := FindCounted(s.threads, Behind(s.openings));
      assert InStep(s.threads[t], s.openings, |s.threads|);
      NoHolders(s);
    } else {
      t := NotCounted(s);
      assert InStep(s.threads[t], s.openings, |s.threads|);
      NoHolders(s);
      if Behind(s.openings)(s.threads[t]) { CountAtLeastOne(s.threads, t, Behind(s.openings)); }
    }
  }

  lemma NoHolders(s: State)
    requires AllInStep(s) && s.mutex > 0
    ensures forall u :: 0 <= u < |s.threads| ==> !HoldsMutex(s.threads[u])
  {
    forall u | 0 <= u < |s.threads| && HoldsMutex(s.threads[u]) ensures false {
      CountAtLeastOne(s.threads, u, HoldsMutex);
    }
  }

  /** With the mutex free, some thread has not counted itself yet. */
  lemma NotCounted(s: State) returns (t: nat)
    requires Inv(s) && s.mutex > 0 && |s.threads| >= 1
    ensures t < |s.threads| && !Counted(s.openings)(s.threads[t])
  {
    NoHolders(s);
    CountAll(s.threads, Counted(s.openings));
    t :| 0 <= t < |s.threads| && !Counted(s.openings)(s.threads[t]);
  }

  // ---------------------------------------------------------------- a bound without fairness

  /** Where a thread is between two turnstiles. */
  function Place(x: Thread, n: nat): nat {
    match x.pc
    case Arrive => 0 case Point => 0 case Inc => 1 case Dec => 1 case TestFull => 2 case TestEmpty => 2
    case Post1 => 3 + x.i case Post2 => 3 + x.i
    case Unlock1 => n + 4 case Unlock2 => n + 4 case Wait1 => n + 5 case Wait2 => n + 5
  }

  /** How far a thread has come since the start. */
  function Rank(x: Thread, n: nat): nat { x.passed * (n + 6) + Place(x, n) }

  /** Every step takes a thread further. */
  lemma RankRises(s: State, t: nat, q: nat)
    requires AllInStep(s) && Enabled(s, t) && q < |s.threads|
    ensures var n := |s.threads|;
            Rank(Step(s, t).threads[q], n) >= Rank(s.threads[q], n) + if t == q then 1 else 0
  {
    hide Count;
    var n, x := |s.threads|, s.threads[t];
    assert InStep(x, s.openings, n);
    assert (x.passed + 1) * (n + 6) == x.passed * (n + 6) + n + 6;
  }

  /** The threads that take a step from position i to j - 1 of the schedule, in order. */
  ghost function Took(n: nat, sched: seq<nat>, i: nat, j: nat): seq<nat>
    requires i <= j <= |sched|
  {
    if i == j then []
    else Took(n, sched, i, j - 1) + if Enabled(After(n, sched[..j - 1]), sched[j - 1]) then [sched[j - 1]] else []
  }

  lemma AfterNext(n: nat, sched: seq<nat>, j: nat)
    requires 0 < j <= |sched|
    ensures var s := After(n, sched[..j - 1]);
            After(n, sched[..j]) == if Enabled(s, sched[j - 1]) then Step(s, sched[j - 1]) else s
  {
    assert sched[..j][..j - 1] == sched[..j - 1];
  }

  lemma {:induction false} StepsRaiseRank(n: nat, sched: seq<nat>, q: nat, i: nat, j: nat)
    requires n >= 1 && q < n && i <= j <= |sched|
    ensures Tally(Took(n, sched, i, j), q) + Rank(After(n, sched[..i]).threads[q], n)
         <= Rank(After(n, sched[..j]).threads[q], n)
  {
    hide After, Tally, Rank, AllInStep, Arrivals, Tokens;
    if i == j {
      TallyNone(q);
    } else {
      StepsRaiseRank(n, sched, q, i, j - 1);
      AfterNext(n, sched, j);
      Reachable(n, sched[..j - 1]);
      var s, t, who := After(n, sched[..j - 1]), sched[j - 1], Took(n, sched, i, j - 1);
      if Enabled(s, t) { RankRises(s, t, q); }
      TallyNext(who, t, q);
      assert who + [] == who;
    }
  }

  lemma {:induction false} TookByThreads(n: nat, sched: seq<nat>, i: nat, j: nat)
    requires i <= j <= |sched|
    ensures forall k :: 0 <= k < |Took(n, sched, i, j)| ==> Took(n, sched, i, j)[k] < n
  {
    hide After;
    if i < j { TookByThreads(n, sched, i, j - 1); }
  }

  /** A thread that is at most one turnstile ahead or behind `g` has a rank in a window of three passages. */
  lemma RankWindow(x: Thread, y: Thread, g: nat, n: nat)
    requires x.passed <= g + 1 && g <= y.passed + 1 && Place(x, n) <= n + 5
    ensures Rank(x, n) <= Rank(y, n) + 3 * (n + 6)
  {
    hide Place;
    var k := n + 6;
    assert x.passed <= y.passed + 2;
    assert x.passed * k <= (y.passed + 2) * k;
    assert (y.passed + 2) * k == y.passed * k + 2 * k;
  }

  lemma PlaceInRange(n: nat, sched: seq<nat>, q: nat)
    requires n >= 1 && q < n
    ensures Place(After(n, sched).threads[q], n) <= n + 5
  {
    hide After, Arrivals, Tokens, Count;
    Reachable(n, sched);
    var s := After(n, sched);
    assert InStep(s.threads[q], s.openings, n);
  }

  /** While p passes no turnstile, every thread takes at most 3 (n + 6) steps. */
  lemma FewStepsEach(n: nat, sched: seq<nat>, p: nat, q: nat, i: nat, j: nat)
    requires n >= 1 && p < n && q < n && i <= j <= |sched|
    requires After(n, sched[..i]).threads[p].passed == After(n, sched[..j]).threads[p].passed
    ensures Tally(Took(n, sched, i, j), q) <= 3 * (n + 6)
  {
    hide After, Tally, Took, Rank, Place;
    StepsRaiseRank(n, sched, q, i, j);
    AtMostOneRoundAhead(n, sched[..i], p, q, 0);
    AtMostOneRoundAhead(n, sched[..j], q, p, 0);
    PlaceInRange(n, sched[..j], q);
    RankWindow(After(n, sched[..j]).threads[q], After(n, sched[..i]).threads[q],
               After(n, sched[..i]).threads[p].passed, n);
  }

  /**
   No starvation: in every schedule, fair or not, at most 3 n (n + 6) steps are taken by all threads together
   while a thread does not get through its next turnstile.
   */
  lemma NoStarvation(n: nat, sched: seq<nat>, p: nat, i: nat, j: nat)
    requires n >= 1 && p < n && i <= j <= |sched|
    requires After(n, sched[..i]).threads[p].passed == After(n, sched[..j]).threads[p].passed
    ensures |Took(n, sched, i, j)| <= 3 * (n + 6) * n
  {
    hide After, Tally, Took;
    TookByThreads(n, sched, i, j);
    var who := Took(n, sched, i, j);
    forall q: nat | q < n ensures Tally(who, q) <= 3 * (n + 6) { FewStepsEach(n, sched, p, q, i, j); }
    StepsTogether(who, n, 3 * (n + 6));
  }

  // ---------------------------------------------------------------- everybody gets through

  lemma {:induction false} TookPrefix(n: nat, sched: seq<nat>, t: nat, i: nat, j: nat)
    requires i <= j <= |sched|
    ensures Took(n, sched + [t], i, j) == Took(n, sched, i, j)
  {
    hide After, Enabled;
    if i < j {
      TookPrefix(n, sched, t, i, j - 1);
      assert (sched + [t])[..j - 1] == sched[..j - 1];
    }
  }

  /** Thread p passes at most one turnstile in a step. */
  lemma PassesOne(s: State, t: nat, p: nat)
    requires Enabled(s, t) && p < |s.threads|
    ensures s.threads[p].passed <= Step(s, t).threads[p].passed <= s.threads[p].passed + 1
  {
  }

  lemma {:induction false} PassOn(n: nat, sched: seq<nat>, i: nat, p: nat) returns (more: seq<nat>)
    requires n >= 1 && p < n && i <= |sched|
    requires After(n, sched[..i]).threads[p].passed == After(n, sched).threads[p].passed
    ensures After(n, sched + more).threads[p].passed == After(n, sched).threads[p].passed + 1
    decreases 3 * (n + 6) * n + 1 - |Took(n, sched, i, |sched|)|
  {
    hide After, Took, Step, Enabled;
    var t := Progress(n, sched);
    var s := After(n, sched);
    var sched' := sched + [t];
    assert sched[..|sched|] == sched && sched'[..|sched|] == sched && sched'[..|sched'|] == sched';
    assert sched'[..i] == sched[..i];
    AfterNext(n, sched', |sched'|);
    PassesOne(s, t, p);
    NoStarvation(n, sched, p, i, |sched|);
    if After(n, sched').threads[p].passed > s.threads[p].passed {
      more := [t];
    } else {
      TookPrefix(n, sched, t, i, |sched|);
      TookNext(n, sched', i);
      var rest := PassOn(n, sched', i, p);
      more := [t] + rest;
      assert sched + more == sched' + rest;
    }
  }

  lemma TookNext(n: nat, sched: seq<nat>, i: nat)
    requires i < |sched| && Enabled(After(n, sched[..|sched| - 1]), sched[|sched| - 1])
    ensures |Took(n, sched, i, |sched|)| == |Took(n, sched, i, |sched| - 1)| + 1
  {
    hide After, Enabled;
  }

  /** Every run can be continued so that a given thread gets through its next turnstile. */
  lemma CanPass(n: nat, sched: seq<nat>, p: nat) returns (more: seq<nat>)
    requires n >= 1 && p < n
    ensures After(n, sched + more).threads[p].passed == After(n, sched).threads[p].passed + 1
  {
    hide After;
    assert sched[..|sched|] == sched;
    more := PassOn(n, sched, |sched|, p);
  }
}

/**
 The no-starve mutex of 31/mutex-nostarve.c (Morris's algorithm), as a transition system over
 any number of threads. A step is one statement of `ns_mutex_acquire` or `ns_mutex_release`;
 Sem_wait and Sem_post are atomic steps on natural-number semaphores.
 */
module MutexNoStarve {
  import opened Counting

  /** What a thread does next. */
  datatype PC =
    | Outside      // Sem_wait(mutex), line 33
    | Register     // room1++
    | Registered   // Sem_post(mutex)
    | Gate1        // Sem_wait(t1), line 37
    | Enter2       // room2++
    | Relock       // Sem_wait(mutex)
    | Leave1       // room1--
    | Test1        // if room1 == 0
    | UnlockLast   // Sem_post(mutex), line 43
    | OpenGate2    // Sem_post(t2)
    | UnlockMore   // Sem_post(mutex), line 46
    | ReopenGate1  // Sem_post(t1)
    | Gate2        // Sem_wait(t2), line 50
    | Leave2       // room2--
    | Critical     // the critical section, then the test of ns_mutex_release
    | HandGate1    // Sem_post(t1), line 56
    | HandGate2    // Sem_post(t2), line 58

  datatype State = State(pc: seq<PC>, room1: int, room2: int, mutex: nat, t1: nat, t2: nat)

  function Start(threads: nat): State {
    State(seq(threads, _ => Outside), 0, 0, 1, 1, 0)
  }

  /** A thread can step unless it waits on a semaphore that is zero. */
  predicate Enabled(s: State, t: nat) {
    && t < |s.pc|
    && (s.pc[t] == Outside || s.pc[t] == Relock ==> s.mutex > 0)
    && (s.pc[t] == Gate1 ==> s.t1 > 0)
    && (s.pc[t] == Gate2 ==> s.t2 > 0)
  }

  /** The next statement of thread `t`. */
  function Step(s: State, t: nat): State
    requires Enabled(s, t)
  {
    match s.pc[t]
    case Outside => s.(mutex := s.mutex - 1, pc := s.pc[t := Register])
    case Register => s.(room1 := s.room1 + 1, pc := s.pc[t := Registered])
    case Registered => s.(mutex := s.mutex + 1, pc := s.pc[t := Gate1])
    case Gate1 => s.(t1 := s.t1 - 1, pc := s.pc[t := Enter2])
    case Enter2 => s.(room2 := s.room2 + 1, pc := s.pc[t := Relock])
    case Relock => s.(mutex := s.mutex - 1, pc := s.pc[t := Leave1])
    case Leave1 => s.(room1 := s.room1 - 1, pc := s.pc[t := Test1])
    case Test1 => s.(pc := s.pc[t := if s.room1 == 0 then UnlockLast else UnlockMore])
    case UnlockLast => s.(mutex := s.mutex + 1, pc := s.pc[t := OpenGate2])
    case OpenGate2 => s.(t2 := s.t2 + 1, pc := s.pc[t := Gate2])
    case UnlockMore => s.(mutex := s.mutex + 1, pc := s.pc[t := ReopenGate1])
    case ReopenGate1 => s.(t1 := s.t1 + 1, pc := s.pc[t := Gate2])
    case Gate2 => s.(t2 := s.t2 - 1, pc := s.pc[t := Leave2])
    case Leave2 => s.(room2 := s.room2 - 1, pc := s.pc[t := Critical])
    case Critical => s.(pc := s.pc[t := if s.room2 == 0 then HandGate1 else HandGate2])
    case HandGate1 => s.(t1 := s.t1 + 1, pc := s.pc[t := Outside])
    case HandGate2 => s.(t2 := s.t2 + 1, pc := s.pc[t := Outside])
  }

  /** The state after a schedule, any sequence of thread names; scheduling a blocked thread changes nothing. */
  ghost function After(threads: nat, sched: seq<nat>): (s: State)
    ensures |s.pc| == threads
  {
    if sched == [] then Start(threads)
    else
      var s, t := After(threads, sched[..|sched| - 1]), sched[|sched| - 1];
      if Enabled(s, t) then Step(s, t) else s
  }

  // ---------------------------------------------------------------- what every step keeps

  predicate HoldsMutex(pc: PC) {
    pc.Register? || pc.Registered? || pc.Leave1? || pc.Test1? || pc.UnlockLast? || pc.UnlockMore?
  }
  predicate InRoom1(pc: PC) { pc.Registered? || pc.Gate1? || pc.Enter2? || pc.Relock? || pc.Leave1? }
  predicate InRoom2(pc: PC) {
    pc.Relock? || pc.Leave1? || pc.Test1? || pc.UnlockLast? || pc.OpenGate2? || pc.UnlockMore?
    || pc.ReopenGate1? || pc.Gate2? || pc.Leave2?
  }
  predicate Moving(pc: PC) {
    pc.Enter2? || pc.Relock? || pc.Leave1? || pc.Test1? || pc.UnlockMore? || pc.ReopenGate1? || pc.HandGate1?
  }
  predicate Draining(pc: PC) { pc.UnlockLast? || pc.OpenGate2? || pc.Leave2? || pc.Critical? || pc.HandGate2? }
  predicate HasBaton(pc: PC) { Moving(pc) || Draining(pc) }

  /** Mutual exclusion on the counters, exact room counts, and one baton. */
  ghost predicate Counts(s: State) {
    && s.mutex + Count(s.pc, HoldsMutex) == 1
    && s.room1 == Count(s.pc, InRoom1)
    && s.room2 == Count(s.pc, InRoom2)
    && s.t1 + s.t2 + Count(s.pc, HasBaton) == 1
  }

  /** Where the baton goes: to the first gate only if somebody can use it there, or nobody is behind the second. */
  ghost predicate BatonUsable(s: State) {
    && (s.t1 == 1 ==> s.room2 == 0 || s.room1 > 0)
    && (s.t2 == 1 ==> s.room2 > 0)
    && forall t :: 0 <= t < |s.pc| ==> Decided(s.pc[t], s.room1, s.room2)
  }

  /** The branch a thread took still agrees with the rooms when it acts on it. */
  predicate Decided(pc: PC, room1: int, room2: int) {
    && (pc == UnlockMore || pc == ReopenGate1 ==> room1 > 0)
    && (pc == UnlockLast ==> room1 == 0)
    && (pc == HandGate1 ==> room2 == 0)
    && (pc == HandGate2 ==> room2 > 0)
  }

  lemma CountsKept(s: State, t: nat)
    requires Enabled(s, t) && Counts(s)
    ensures Counts(Step(s, t))
  {
    hide Count;
    var x := Step(s, t).pc[t];
    assert Step(s, t).pc == s.pc[t := x];
    CountUpdate(s.pc, t, x, HoldsMutex);
    CountUpdate(s.pc, t, x, InRoom1);
    CountUpdate(s.pc, t, x, InRoom2);
    CountUpdate(s.pc, t, x, HasBaton);
  }

  lemma BatonUsableKept(s: State, t: nat)
    requires Enabled(s, t) && Counts(s) && BatonUsable(s)
    ensures BatonUsable(Step(s, t))
  {
    hide Count;
    CountsKept(s, t);
    var s' := Step(s, t);
    if InRoom2(s'.pc[t]) { CountAtLeastOne(s'.pc, t, InRoom2); }
    if HasBaton(s.pc[t]) { CountAtLeastOne(s.pc, t, HasBaton); }
    forall u | 0 <= u < |s'.pc| && u != t ensures Decided(s'.pc[u], s'.room1, s'.room2) { OthersDecided(s, t, u); }
  }

  /** Nobody changes a room while another thread acts on its size. */
  lemma OthersDecided(s: State, t: nat, u: nat)
    requires Enabled(s, t) && Counts(s) && BatonUsable(s) && u < |s.pc| && u != t
    ensures var s' := Step(s, t); Decided(s'.pc[u], s'.room1, s'.room2)
  {
    hide Counts;
    OneBaton(s, t, u);
    assert Decided(s.pc[u], s.room1, s.room2);
    assert Step(s, t).pc[u] == s.pc[u];
  }

  lemma OneBaton(s: State, t: nat, u: nat)
    requires Counts(s) && t < |s.pc| && u < |s.pc| && t != u
    ensures !(HasBaton(s.pc[t]) && HasBaton(s.pc[u])) && !(HoldsMutex(s.pc[t]) && HoldsMutex(s.pc[u]))
    ensures HasBaton(s.pc[t]) || HasBaton(s.pc[u]) ==> s.t1 == s.t2 == 0
  {
    Unique(s.pc, HasBaton);
    Unique(s.pc, HoldsMutex);
    if HasBaton(s.pc[t]) { CountAtLeastOne(s.pc, t, HasBaton); }
    if HasBaton(s.pc[u]) { CountAtLeastOne(s.pc, u, HasBaton); }
  }

  lemma {:induction false} Reachable(threads: nat, sched: seq<nat>)
    ensures Counts(After(threads, sched)) && BatonUsable(After(threads, sched))
  {
    if sched == [] {
      var pc := Start(threads).pc;
      CountNone(pc, HoldsMutex);
      CountNone(pc, InRoom1);
      CountNone(pc, InRoom2);
      CountNone(pc, HasBaton);
    } else {
      var front, t := sched[..|sched| - 1], sched[|sched| - 1];
      Reachable(threads, front);
      if Enabled(After(threads, front), t) {
        CountsKept(After(threads, front), t);
        BatonUsableKept(After(threads, front), t);
      }
    }
  }

  /** At most one thread is in the critical section. */
  lemma MutualExclusion(threads: nat, sched: seq<nat>, p: nat, q: nat)
    requires p < threads && q < threads
    ensures After(threads, sched).pc[p] == Critical && After(threads, sched).pc[q] == Critical ==> p == q
  {
    Reachable(threads, sched);
    Unique(After(threads, sched).pc, HasBaton);
  }

  /** No deadlock: if some thread is inside acquire, the critical section or release, one of those can step. */
  lemma Progress(threads: nat, sched: seq<nat>, p: nat) returns (t: nat)
    requires p < threads
    requires After(threads, sched).pc[p] != Outside
    ensures t < threads && After(threads, sched).pc[t] != Outside && Enabled(After(threads, sched), t)
  {
    Reachable(threads, sched);
    var s := After(threads, sched);
    if Enabled(s, p) {
      t := p;
    } else if s.mutex == 0 {
      t := FindCounted(s.pc, HoldsMutex);
    } else if s.t1 + s.t2 == 0 {
      t := FindCounted(s.pc, HasBaton);
    } else if s.t2 == 1 {
      t := WaiterBehind(s, InRoom2);
    } else if s.room1 > 0 {
      t := WaiterBehind(s, InRoom1);
    } else if s.pc[p] == Gate2 {
      CountAtLeastOne(s.pc, p, InRoom2);
      assert false;
      t := p;
    } else {
      t := p;
    }
  }

  /** With the baton free, the threads of a room are at its gate or about to be. */
  lemma WaiterBehind(s: State, room: PC -> bool) returns (t: nat)
    requires Counts(s) && s.t1 + s.t2 == 1 && (room == InRoom1 || room == InRoom2) && Count(s.pc, room) >= 1
    ensures t < |s.pc| && room(s.pc[t]) && !HasBaton(s.pc[t])
  {
    t := FindCounted(s.pc, room);
    if HasBaton(s.pc[t]) {
      CountAtLeastOne(s.pc, t, HasBaton);
    }
  }

  // ---------------------------------------------------------------- bounded bypass

  /** The baton is letting threads through the second gate. */
  ghost predicate DrainingNow(s: State) {
    s.t2 + Count(s.pc, Draining) >= 1
  }

  /** Between room1++ and the critical section. */
  predicate Waiting(pc: PC) { InRoom1(pc) || InRoom2(pc) }

  /** What `c` entries of thread q into the critical section mean while p waits. */
  ghost predicate Overtaken(s: State, p: nat, q: nat, c: nat)
    requires p < |s.pc| && q < |s.pc|
  {
    && (InRoom1(s.pc[p]) ==> c <= 1 && (DrainingNow(s) && InRoom2(s.pc[q]) ==> c == 0))
    && (InRoom2(s.pc[p]) ==> if DrainingNow(s) then c <= 2 && (InRoom2(s.pc[q]) ==> c <= 1) else c <= 1)
  }

  /** How the phase can change: a move starts draining only with room 1 empty, and ends it only with room 2 empty. */
  lemma Phases(s: State, t: nat)
    requires Enabled(s, t) && Counts(s) && BatonUsable(s)
    ensures DrainingNow(Step(s, t)) <==>
            (DrainingNow(s) || (s.pc[t] == Test1 && s.room1 == 0)) && !(s.pc[t] == Critical && s.room2 == 0)
    ensures Moving(s.pc[t]) || s.pc[t] == Gate1 ==> !DrainingNow(s)
    ensures Draining(s.pc[t]) || s.pc[t] == Gate2 ==> DrainingNow(s)
  {
    hide Count;
    var x := Step(s, t).pc[t];
    assert Step(s, t).pc == s.pc[t := x];
    CountUpdate(s.pc, t, x, Draining);
    DrainersHaveBaton(s.pc);
    if HasBaton(s.pc[t]) { CountAtLeastOne(s.pc, t, HasBaton); }
    if Draining(s.pc[t]) { CountAtLeastOne(s.pc, t, Draining); }
    if Count(s.pc, Draining) >= 1 {
      var u := FindCounted(s.pc, Draining);
      if u != t { OneBaton(s, t, u); }
    }
  }

  lemma {:induction false} DrainersHaveBaton(pc: seq<PC>)
    ensures Count(pc, Draining) <= Count(pc, HasBaton)
  {
    if pc != [] {
      DrainersHaveBaton(pc[1..]);
    }
  }

  /** One step of any thread, while p waits. */
  lemma OvertakenKept(s: State, t: nat, p: nat, q: nat, c: nat)
    requires Enabled(s, t) && Counts(s) && BatonUsable(s) && p < |s.pc| && q < |s.pc| && p != q
    requires Waiting(s.pc[p]) && Waiting(Step(s, t).pc[p])
    requires Overtaken(s, p, q, c)
    ensures Overtaken(Step(s, t), p, q, c + if t == q && s.pc[q] == Leave2 then 1 else 0)
  {
    hide Count, DrainingNow;
    Phases(s, t);
    if InRoom1(s.pc[p]) { CountAtLeastOne(s.pc, p, InRoom1); }
    if InRoom2(s.pc[p]) { CountAtLeastOne(s.pc, p, InRoom2); }
  }

  /** How often q enters the critical section in steps i to j - 1 of the schedule. */
  ghost function Entries(threads: nat, sched: seq<nat>, q: nat, i: nat, j: nat): nat
    requires i <= j <= |sched| && q < threads
  {
    if i == j then 0
    else
      var s := After(threads, sched[..j - 1]);
      Entries(threads, sched, q, i, j - 1) +
      if sched[j - 1] == q && s.pc[q] == Leave2 then 1 else 0
  }

  lemma AfterNext(threads: nat, sched: seq<nat>, j: nat)
    requires 0 < j <= |sched|
    ensures var s := After(threads, sched[..j - 1]);
            After(threads, sched[..j]) == if Enabled(s, sched[j - 1]) then Step(s, sched[j - 1]) else s
  {
    assert sched[..j][..j - 1] == sched[..j - 1];
  }

  /**
   Bounded bypass: from the step at which p executes room1++ until p enters the critical
   section, every other thread enters it at most twice, in every interleaving.
   */
  lemma {:induction false} BoundedBypass(threads: nat, sched: seq<nat>, p: nat, q: nat, i: nat, j: nat)
    requires p < threads && q < threads && p != q && i < j <= |sched|
    requires sched[i] == p && After(threads, sched[..i]).pc[p] == Register
    requires forall k :: i < k <= j ==> Waiting(After(threads, sched[..k]).pc[p])
    ensures Entries(threads, sched, q, i + 1, j) <= 2
    ensures Overtaken(After(threads, sched[..j]), p, q, Entries(threads, sched, q, i + 1, j))
  {
    hide After, Counts, BatonUsable;
    AfterNext(threads, sched, j);
    Reachable(threads, sched[..j - 1]);
    if j == i + 1 {
      assert Entries(threads, sched, q, i + 1, j) == 0;
    } else {
      BoundedBypass(threads, sched, p, q, i, j - 1);
      var s := After(threads, sched[..j - 1]);
      if Enabled(s, sched[j - 1]) {
        OvertakenKept(s, sched[j - 1], p, q, Entries(threads, sched, q, i + 1, j - 1));
      }
    }
  }

  // ---------------------------------------------------------------- no starvation, without fairness

  /** How far a thread is on its way from one visit of the critical section to the next. */
  function Rank(pc: PC): nat {
    match pc
    case Critical => 0 case HandGate1 => 1 case HandGate2 => 1 case Outside => 2 case Register => 3
    case Registered => 4 case Gate1 => 5 case Enter2 => 6 case Relock => 7 case Leave1 => 8 case Test1 => 9
    case UnlockLast => 10 case UnlockMore => 10 case OpenGate2 => 11 case ReopenGate1 => 11
    case Gate2 => 12 case Leave2 => 13
  }

  /** The threads that take a step from position i to j - 1 of the schedule, in order. */
  ghost function Took(threads: nat, sched: seq<nat>, i: nat, j: nat): seq<nat>
    requires i <= j <= |sched|
  {
    if i == j then []
    else
      Took(threads, sched, i, j - 1) +
      if Enabled(After(threads, sched[..j - 1]), sched[j - 1]) then [sched[j - 1]] else []
  }

  /** Every step but the entry to the critical section raises the rank. */
  lemma {:induction false} StepsBetweenEntries(threads: nat, sched: seq<nat>, q: nat, i: nat, j: nat)
    requires q < threads && i <= j <= |sched|
    ensures Tally(Took(threads, sched, i, j), q) + Rank(After(threads, sched[..i]).pc[q])
         <= 14 * Entries(threads, sched, q, i, j) + Rank(After(threads, sched[..j]).pc[q])
  {
    hide After, Rank, Tally, Enabled;
    if i == j {
      TallyNone(q);
    } else {
      StepsBetweenEntries(threads, sched, q, i, j - 1);
      AfterNext(threads, sched, j);
      RankRises(After(threads, sched[..j - 1]), sched[j - 1], q);
      var who := Took(threads, sched, i, j - 1);
      TallyNext(who, sched[j - 1], q);
      assert who + [] == who;
    }
  }

  lemma RankRises(s: State, t: nat, q: nat)
    requires q < |s.pc|
    ensures Enabled(s, t) ==>
              Rank(Step(s, t).pc[q]) + (if t == q && s.pc[q] == Leave2 then 14 else 0)
              >= Rank(s.pc[q]) + if t == q then 1 else 0
  {
  }

  /** While p waits, every thread takes at most 41 steps. */
  lemma FewStepsEach(threads: nat, sched: seq<nat>, p: nat, q: nat, i: nat, j: nat)
    requires p < threads && q < threads && i < j <= |sched|
    requires sched[i] == p && After(threads, sched[..i]).pc[p] == Register
    requires forall k :: i < k <= j ==> Waiting(After(threads, sched[..k]).pc[p])
    ensures Tally(Took(threads, sched, i + 1, j), q) <= 41
  {
    hide After, Tally, Took;
    StepsBetweenEntries(threads, sched, q, i + 1, j);
    if q == p { NoEntry(threads, sched, p, i + 1, j); } else { BoundedBypass(threads, sched, p, q, i, j); }
  }

  lemma {:induction false} NoEntry(threads: nat, sched: seq<nat>, p: nat, i: nat, j: nat)
    requires p < threads && i <= j <= |sched|
    requires forall k :: i <= k <= j ==> Waiting(After(threads, sched[..k]).pc[p])
    ensures Entries(threads, sched, p, i, j) == 0
  {
    hide After;
    if i < j {
      NoEntry(threads, sched, p, i, j - 1);
      AfterNext(threads, sched, j);
    }
  }

  lemma {:induction false} TookByThreads(threads: nat, sched: seq<nat>, i: nat, j: nat)
    requires i <= j <= |sched|
    ensures forall k :: 0 <= k < |Took(threads, sched, i, j)| ==> Took(threads, sched, i, j)[k] < threads
  {
    hide After;
    if i < j { TookByThreads(threads, sched, i, j - 1); }
  }

  /**
   No starvation: in every schedule, fair or not, at most 41 steps per thread are taken between a thread's room1++
   and its entry to the critical section.
   */
  lemma NoStarvation(threads: nat, sched: seq<nat>, p: nat, i: nat, j: nat)
    requires p < threads && i < j <= |sched|
    requires sched[i] == p && After(threads, sched[..i]).pc[p] == Register
    requires forall k :: i < k <= j ==> Waiting(After(threads, sched[..k]).pc[p])
    ensures |Took(threads, sched, i + 1, j)| <= 41 * threads
  {
    hide After, Tally, Took;
    TookByThreads(threads, sched, i + 1, j);
    var who := Took(threads, sched, i + 1, j);
    forall q: nat | q < threads ensures Tally(who, q) <= 41 { FewStepsEach(threads, sched, p, q, i, j); }
    StepsTogether(who, threads, 41);
  }

  // ---------------------------------------------------------------- everybody can enter

  /** The statements left until a thread has been through the mutex. */
  function Left(pc: PC): nat {
    match pc
    case Outside => 0 case HandGate1 => 1 case HandGate2 => 1 case Critical => 2 case Leave2 => 3 case Gate2 => 4
    case OpenGate2 => 5 case ReopenGate1 => 5 case UnlockLast => 6 case UnlockMore => 6 case Test1 => 7
    case Leave1 => 8 case Relock => 9 case Enter2 => 10 case Gate1 => 11 case Registered => 12 case Register => 13
  }

  lemma LeftFalls(s: State, t: nat)
    requires Enabled(s, t) && s.pc[t] != Outside
    ensures Sum(Step(s, t).pc, Left) < Sum(s.pc, Left)
  {
    hide Sum;
    var x := Step(s, t).pc[t];
    assert Step(s, t).pc == s.pc[t := x];
    SumUpdate(s.pc, t, x, Left);
  }

  lemma AfterOne(threads: nat, sched: seq<nat>, t: nat)
    requires Enabled(After(threads, sched), t)
    ensures After(threads, sched + [t]) == Step(After(threads, sched), t)
  {
    assert (sched + [t])[..|sched|] == sched;
  }

  /** Every run can be continued until nobody is in the mutex. */
  lemma {:induction false} CanDrain(threads: nat, sched: seq<nat>) returns (more: seq<nat>)
    ensures forall q :: 0 <= q < threads ==> After(threads, sched + more).pc[q] == Outside
    decreases Sum(After(threads, sched).pc, Left)
  {
    hide After, Sum, Enabled, Step;
    if p :| 0 <= p < threads && After(threads, sched).pc[p] != Outside {
      var t := Progress(threads, sched, p);
      LeftFalls(After(threads, sched), t);
      AfterOne(threads, sched, t);
      var rest := CanDrain(threads, sched + [t]);
      more := [t] + rest;
      assert sched + more == sched + [t] + rest;
    } else {
      more := [];
      assert sched + more == sched;
    }
  }

  /** The state after n turns of one thread. */
  ghost function Turns(s: State, t: nat, n: nat): State {
    if n == 0 then s
    else
      var s' := Turns(s, t, n - 1);
      if Enabled(s', t) then Step(s', t) else s'
  }

  lemma Turn(s: State, t: nat, n: nat)
    requires Enabled(Turns(s, t, n), t)
    ensures Turns(s, t, n + 1) == Step(Turns(s, t, n), t)
  {
  }

  lemma {:induction false} Extend(threads: nat, sched: seq<nat>, t: nat, n: nat) returns (more: seq<nat>)
    ensures After(threads, sched + more) == Turns(After(threads, sched), t, n)
  {
    if n == 0 {
      more := [];
      assert sched + more == sched;
    } else {
      var front := Extend(threads, sched, t, n - 1);
      more := front + [t];
      assert sched + more == (sched + front) + [t];
      assert (sched + more)[..|sched + more| - 1] == sched + front;
    }
  }

  /** With nobody inside, the first gate is open and both rooms are empty. */
  lemma Quiet(threads: nat, sched: seq<nat>)
    requires forall q :: 0 <= q < threads ==> After(threads, sched).pc[q] == Outside
    ensures var s := After(threads, sched); s.mutex == s.t1 == 1 && s.t2 == 0 && s.room1 == s.room2 == 0
  {
    hide After, Count;
    Reachable(threads, sched);
    var s := After(threads, sched);
    CountNone(s.pc, HoldsMutex);
    CountNone(s.pc, InRoom1);
    CountNone(s.pc, InRoom2);
    CountNone(s.pc, HasBaton);
  }

  /** From there a thread gets to the second gate in ten steps of its own. */
  lemma WalksToGate2(s: State, p: nat)
    requires p < |s.pc| && s.pc[p] == Outside && s.mutex == s.t1 == 1 && s.t2 == 0 && s.room1 == s.room2 == 0
    ensures Turns(s, p, 10) == s.(pc := s.pc[p := Gate2], t1 := 0, t2 := 1, room2 := 1)
  {
    hide Turns;
    WalksToRoom2(s, p);
    Turn(s, p, 5);
    Turn(s, p, 6);
    Turn(s, p, 7);
    Turn(s, p, 8);
    Turn(s, p, 9);
  }

  lemma WalksToRoom2(s: State, p: nat)
    requires p < |s.pc| && s.pc[p] == Outside && s.mutex == s.t1 == 1 && s.room1 == s.room2 == 0
    ensures Turns(s, p, 5) == s.(pc := s.pc[p := Relock], t1 := 0, room1 := 1, room2 := 1)
  {
    hide Turns;
    assert Turns(s, p, 0) == s by { NoTurn(s, p); }
    Turn(s, p, 0);
    Turn(s, p, 1);
    Turn(s, p, 2);
    Turn(s, p, 3);
    Turn(s, p, 4);
  }

  lemma NoTurn(s: State, p: nat)
    ensures Turns(s, p, 0) == s
  {
  }

  /** Every run can be continued so that a given thread is in the critical section. */
  lemma CanEnter(threads: nat, sched: seq<nat>, p: nat) returns (more: seq<nat>)
    requires p < threads
    ensures After(threads, sched + more).pc[p] == Critical
  {
    hide After, Turns;
    var drain := CanDrain(threads, sched);
    Quiet(threads, sched + drain);
    var s := After(threads, sched + drain);
    WalksToGate2(s, p);
    Turn(s, p, 10);
    Turn(s, p, 11);
    var walk := Extend(threads, sched + drain, p, 12);
    more := drain + walk;
    assert sched + more == sched + drain + walk;
  }
}

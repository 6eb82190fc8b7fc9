/**
 The no-starve reader/writer lock of 31/reader-writer-nostarve.c, as a transition system over
 any number of reader and writer threads that lock and unlock again and again. A step is one
 statement; Sem_wait and Sem_post are atomic.
 */
module RwLockNoStarve {
  import opened Counting

  /** What a thread does next. */
  datatype PC =
    | RIdle       // Sem_wait(readlock), line 33
    | RGate       // Sem_post(readlock)
    | RLock       // Sem_wait(lock)
    | RInc        // readers++
    | RTest       // if readers == 1
    | RWait       // Sem_wait(writelock)
    | RUnlock     // Sem_post(lock), line 39
    | Reading     // the critical section, then Sem_wait(lock), line 43
    | RDec        // readers--
    | RTestLast   // if readers == 0
    | RRelease    // Sem_post(writelock)
    | RUnlock2    // Sem_post(lock), line 47
    | WIdle       // Sem_wait(readlock), line 55
    | WWait       // Sem_wait(writelock)
    | Writing     // the critical section, then Sem_post(writelock), line 60
    | WRelease    // Sem_post(readlock)

  datatype State = State(pc: seq<PC>, readers: int, lock: nat, writelock: nat, readlock: nat)

  /** `writer[t]` says whether thread t is a writer. */
  function Start(writer: seq<bool>): State {
    State(seq(|writer|, t requires 0 <= t < |writer| => if writer[t] then WIdle else RIdle), 0, 1, 1, 1)
  }

  predicate Enabled(s: State, t: nat) {
    && t < |s.pc|
    && (s.pc[t].RIdle? || s.pc[t].WIdle? ==> s.readlock > 0)
    && (s.pc[t].RLock? || s.pc[t].Reading? ==> s.lock > 0)
    && (s.pc[t].RWait? || s.pc[t].WWait? ==> s.writelock > 0)
  }

  function Step(s: State, t: nat): State
    requires Enabled(s, t)
  {
    match s.pc[t]
    case RIdle => s.(readlock := s.readlock - 1, pc := s.pc[t := RGate])
    case RGate => s.(readlock := s.readlock + 1, pc := s.pc[t := RLock])
    case RLock => s.(lock := s.lock - 1, pc := s.pc[t := RInc])
    case RInc => s.(readers := s.readers + 1, pc := s.pc[t := RTest])
    case RTest => s.(pc := s.pc[t := if s.readers == 1 then RWait else RUnlock])
    case RWait => s.(writelock := s.writelock - 1, pc := s.pc[t := RUnlock])
    case RUnlock => s.(lock := s.lock + 1, pc := s.pc[t := Reading])
    case Reading => s.(lock := s.lock - 1, pc := s.pc[t := RDec])
    case RDec => s.(readers := s.readers - 1, pc := s.pc[t := RTestLast])
    case RTestLast => s.(pc := s.pc[t := if s.readers == 0 then RRelease else RUnlock2])
    case RRelease => s.(writelock := s.writelock + 1, pc := s.pc[t := RUnlock2])
    case RUnlock2 => s.(lock := s.lock + 1, pc := s.pc[t := RIdle])
    case WIdle => s.(readlock := s.readlock - 1, pc := s.pc[t := WWait])
    case WWait => s.(writelock := s.writelock - 1, pc := s.pc[t := Writing])
    case Writing => s.(writelock := s.writelock + 1, pc := s.pc[t := WRelease])
    case WRelease => s.(readlock := s.readlock + 1, pc := s.pc[t := WIdle])
  }

  /** The state after a schedule, any sequence of thread names; scheduling a blocked thread changes nothing. */
  ghost function After(writer: seq<bool>, sched: seq<nat>): (s: State)
    ensures |s.pc| == |writer|
  {
    if sched == [] then Start(writer)
    else
      var s, t := After(writer, sched[..|sched| - 1]), sched[|sched| - 1];
      if Enabled(s, t) then Step(s, t) else s
  }

  // ---------------------------------------------------------------- what every step keeps

  predicate HoldsGate(pc: PC) { pc.RGate? || pc.WWait? || pc.Writing? || pc.WRelease? }
  predicate HoldsLock(pc: PC) {
    pc.RInc? || pc.RTest? || pc.RWait? || pc.RUnlock? || pc.RDec? || pc.RTestLast? || pc.RRelease? || pc.RUnlock2?
  }
  predicate Registered(pc: PC) { pc.RTest? || pc.RWait? || pc.RUnlock? || pc.Reading? || pc.RDec? }
  predicate Sharing(pc: PC) { pc.RUnlock? || pc.Reading? || pc.RDec? }
  predicate IsWriting(pc: PC) { pc.Writing? }
  predicate Leaving(pc: PC, readers: int) { pc.RRelease? || (pc.RTestLast? && readers == 0) }

  /** The readers as a group hold writelock. */
  ghost predicate ReadersHold(s: State) {
    Count(s.pc, Sharing) >= 1 || exists t :: 0 <= t < |s.pc| && Leaving(s.pc[t], s.readers)
  }

  ghost predicate Locks(s: State) {
    && s.readlock + Count(s.pc, HoldsGate) == 1
    && s.lock + Count(s.pc, HoldsLock) == 1
    && s.readers == Count(s.pc, Registered)
    && forall t :: 0 <= t < |s.pc| ==> (s.pc[t].RWait? ==> s.readers == 1) && (s.pc[t].RRelease? ==> s.readers == 0)
  }

  /** writelock is free, held by one writer, or held by the readers together. */
  ghost predicate OneOwner(s: State) {
    s.writelock + Count(s.pc, IsWriting) + (if ReadersHold(s) then 1 else 0) == 1
  }

  lemma LocksKept(s: State, t: nat)
    requires Enabled(s, t) && Locks(s)
    ensures Locks(Step(s, t))
  {
    hide Count;
    var s' := Step(s, t);
    var x := s'.pc[t];
    assert s'.pc == s.pc[t := x];
    CountUpdate(s.pc, t, x, HoldsGate);
    CountUpdate(s.pc, t, x, HoldsLock);
    CountUpdate(s.pc, t, x, Registered);
    forall u | 0 <= u < |s'.pc| && u != t && HoldsLock(s.pc[u]) ensures !HoldsLock(s.pc[t]) && s'.readers == s.readers {
      Unique(s.pc, HoldsLock);
    }
  }

  /** While t holds `lock`, any other registered reader is in the critical section. */
  lemma OthersReading(s: State, t: nat) returns (u: nat)
    requires Locks(s) && t < |s.pc| && HoldsLock(s.pc[t])
    requires s.readers >= if Registered(s.pc[t]) then 2 else 1
    ensures u < |s.pc| && u != t && s.pc[u] == Reading
  {
    CountUpdate(s.pc, t, RIdle, Registered);
    u := FindCounted(s.pc[t := RIdle], Registered);
    Unique(s.pc, HoldsLock);
  }

  /** While t holds `lock` and is the only registered reader, or none is, nobody else shares or releases writelock. */
  lemma NobodyShares(s: State, t: nat)
    requires Locks(s) && t < |s.pc| && HoldsLock(s.pc[t]) && !Sharing(s.pc[t])
    requires s.readers <= if Registered(s.pc[t]) then 1 else 0
    ensures Count(s.pc, Sharing) == 0
    ensures forall u :: 0 <= u < |s.pc| && u != t ==> !Leaving(s.pc[u], s.readers)
  {
    Unique(s.pc, HoldsLock);
    forall u | 0 <= u < |s.pc| ensures !Sharing(s.pc[u]) {
      if u != t && Registered(s.pc[u]) {
        CountAtLeastOne(s.pc, u, Registered);
        if Registered(s.pc[t]) {
          CountAtLeastTwo(s.pc, if t < u then t else u, if t < u then u else t, Registered);
        }
      }
    }
    CountNone(s.pc, Sharing);
  }

  /** The first reader takes writelock for all. */
  lemma FirstReaderTakes(s: State, t: nat)
    requires Enabled(s, t) && Locks(s) && s.pc[t].RWait?
    ensures !ReadersHold(s) && ReadersHold(Step(s, t))
  {
    hide Count;
    NobodyShares(s, t);
    CountUpdate(s.pc, t, RUnlock, Sharing);
  }

  /** The last reader gives it back. */
  lemma LastReaderReleases(s: State, t: nat)
    requires Enabled(s, t) && Locks(s) && s.pc[t].RRelease?
    ensures ReadersHold(s) && !ReadersHold(Step(s, t))
  {
    hide Count;
    LocksKept(s, t);
    assert Leaving(s.pc[t], s.readers);
    NobodyShares(Step(s, t), t);
  }

  lemma TestKeepsHold(s: State, t: nat)
    requires Enabled(s, t) && Locks(s) && (s.pc[t].RTest? || s.pc[t].RTestLast?)
    ensures ReadersHold(Step(s, t)) <==> ReadersHold(s)
  {
    hide Count;
    var s' := Step(s, t);
    CountUpdate(s.pc, t, s'.pc[t], Sharing);
    assert forall u :: 0 <= u < |s.pc| && u != t ==> s'.pc[u] == s.pc[u];
    if s.readers != if s.pc[t].RTest? then 1 else 0 {
      if s.pc[t].RTest? { CountAtLeastOne(s.pc, t, Registered); }
      var u := OthersReading(s, t);
      CountAtLeastOne(s.pc, u, Sharing);
    } else if s.pc[t].RTest? {
      NobodyShares(s, t);
    } else {
      assert Leaving(s.pc[t], s.readers) && Leaving(s'.pc[t], s'.readers);
    }
  }

  lemma CountingKeepsHold(s: State, t: nat)
    requires Enabled(s, t) && Locks(s) && (s.pc[t].RInc? || s.pc[t].RDec?)
    ensures ReadersHold(Step(s, t)) <==> ReadersHold(s)
  {
    hide Count;
    LocksKept(s, t);
    var s' := Step(s, t);
    CountUpdate(s.pc, t, s'.pc[t], Sharing);
    if s.pc[t].RInc? {
      Unique(s.pc, HoldsLock);
      assert forall u :: 0 <= u < |s.pc| ==> !Leaving(s.pc[u], s.readers) && !Leaving(s'.pc[u], s'.readers);
    } else {
      CountAtLeastOne(s.pc, t, Sharing);
      if s'.readers >= 1 {
        var u := OthersReading(s', t);
        CountAtLeastOne(s'.pc, u, Sharing);
      } else {
        assert Leaving(s'.pc[t], s'.readers);
      }
    }
  }

  lemma OthersKeepHold(s: State, t: nat)
    requires Enabled(s, t) && Locks(s)
    requires var p := s.pc[t]; !p.RWait? && !p.RRelease? && !p.RTest? && !p.RTestLast? && !p.RInc? && !p.RDec?
    ensures ReadersHold(Step(s, t)) <==> ReadersHold(s)
  {
    hide Count;
    var s' := Step(s, t);
    CountUpdate(s.pc, t, s'.pc[t], Sharing);
    assert s'.pc == s.pc[t := s'.pc[t]] && s'.readers == s.readers;
    assert forall u :: 0 <= u < |s.pc| ==> (Leaving(s.pc[u], s.readers) <==> Leaving(s'.pc[u], s'.readers));
  }

  /** The steps that pass writelock to or from the readers. */
  lemma SharingChanges(s: State, t: nat)
    requires Enabled(s, t) && Locks(s)
    ensures s.pc[t].RWait? ==> !ReadersHold(s) && ReadersHold(Step(s, t))
    ensures s.pc[t].RRelease? ==> ReadersHold(s) && !ReadersHold(Step(s, t))
    ensures !s.pc[t].RWait? && !s.pc[t].RRelease? ==> (ReadersHold(Step(s, t)) <==> ReadersHold(s))
  {
    hide Locks, ReadersHold, Step;
    match s.pc[t]
    case RWait => FirstReaderTakes(s, t);
    case RRelease => LastReaderReleases(s, t);
    case RTest => TestKeepsHold(s, t);
    case RTestLast => TestKeepsHold(s, t);
    case RInc => CountingKeepsHold(s, t);
    case RDec => CountingKeepsHold(s, t);
    case _ => OthersKeepHold(s, t);
  }

  lemma OneOwnerKept(s: State, t: nat)
    requires Enabled(s, t) && Locks(s) && OneOwner(s)
    ensures OneOwner(Step(s, t))
  {
    hide Count, ReadersHold, Locks;
    SharingChanges(s, t);
    var x := Step(s, t).pc[t];
    assert Step(s, t).pc == s.pc[t := x];
    CountUpdate(s.pc, t, x, IsWriting);
    if s.pc[t].Writing? { CountAtLeastOne(s.pc, t, IsWriting); }
  }

  lemma {:induction false} Reachable(writer: seq<bool>, sched: seq<nat>)
    ensures Locks(After(writer, sched)) && OneOwner(After(writer, sched))
  {
    if sched == [] {
      var pc := Start(writer).pc;
      CountNone(pc, HoldsGate);
      CountNone(pc, HoldsLock);
      CountNone(pc, Registered);
      CountNone(pc, Sharing);
      CountNone(pc, IsWriting);
    } else {
      var s, t := After(writer, sched[..|sched| - 1]), sched[|sched| - 1];
      Reachable(writer, sched[..|sched| - 1]);
      if Enabled(s, t) {
        LocksKept(s, t);
        OneOwnerKept(s, t);
      }
    }
  }

  // ---------------------------------------------------------------- the theorems

  /** A writer in the critical section excludes every other reader and writer. */
  lemma WriterExcludesAll(writer: seq<bool>, sched: seq<nat>, p: nat, q: nat)
    requires p < |writer| && q < |writer| && p != q && After(writer, sched).pc[p] == Writing
    ensures After(writer, sched).pc[q] != Writing && After(writer, sched).pc[q] != Reading
  {
    hide After;
    Reachable(writer, sched);
    var s := After(writer, sched);
    CountAtLeastOne(s.pc, p, IsWriting);
    Unique(s.pc, IsWriting);
    if s.pc[q] == Reading { CountAtLeastOne(s.pc, q, Sharing); }
  }

  predicate Idle(pc: PC) { pc.RIdle? || pc.WIdle? }

  /** No deadlock: if some thread is inside the lock's code, one of those can step. */
  lemma Progress(writer: seq<bool>, sched: seq<nat>, p: nat) returns (t: nat)
    requires p < |writer| && !Idle(After(writer, sched).pc[p])
    ensures t < |writer| && !Idle(After(writer, sched).pc[t]) && Enabled(After(writer, sched), t)
  {
    hide After;
    Reachable(writer, sched);
    t := SomeEnabled(After(writer, sched), p);
  }

  lemma SomeEnabled(s: State, p: nat) returns (t: nat)
    requires Locks(s) && OneOwner(s) && p < |s.pc| && !Idle(s.pc[p])
    ensures t < |s.pc| && !Idle(s.pc[t]) && Enabled(s, t)
  {
    hide Count;
    t := p;
    if !Enabled(s, t) && s.lock == 0 {
      t := FindCounted(s.pc, HoldsLock);
    }
    if !Enabled(s, t) && Count(s.pc, IsWriting) >= 1 {
      t := FindCounted(s.pc, IsWriting);
    }
    if !Enabled(s, t) {
      // writelock is zero and no writer has it: t is not the first reader, and a reader can leave
      if s.pc[t].RWait? { NobodyShares(s, t); }
      if Count(s.pc, Sharing) >= 1 {
        t := FindCounted(s.pc, Sharing);
      } else {
        t :| 0 <= t < |s.pc| && Leaving(s.pc[t], s.readers);
      }
      if HoldsLock(s.pc[t]) { CountAtLeastOne(s.pc, t, HoldsLock); }
    }
  }

  /** A reader past the gate and not yet in the critical section. */
  predicate PastGate(pc: PC) { pc.RLock? || pc.RInc? || pc.RTest? || pc.RWait? || pc.RUnlock? }

  /** How often thread q enters the critical section, as a reader or as a writer, in steps i to j - 1. */
  ghost function Entries(writer: seq<bool>, sched: seq<nat>, q: nat, i: nat, j: nat): nat
    requires i <= j <= |sched| && q < |writer|
  {
    if i == j then 0
    else
      var s := After(writer, sched[..j - 1]);
      Entries(writer, sched, q, i, j - 1) +
      if sched[j - 1] == q && Enabled(s, q) && (s.pc[q] == RUnlock || s.pc[q] == WWait) then 1 else 0
  }

  lemma AfterNext(writer: seq<bool>, sched: seq<nat>, j: nat)
    requires 0 < j <= |sched|
    ensures var s := After(writer, sched[..j - 1]);
            After(writer, sched[..j]) == if Enabled(s, sched[j - 1]) then Step(s, sched[j - 1]) else s
  {
    assert sched[..j][..j - 1] == sched[..j - 1];
  }

  /**
   Once writer w holds readlock and until it enters: no other writer enters, a reader that was
   past the gate enters at most once, and no other reader enters at all.
   */
  lemma {:induction false} WriterOvertakenAtMostOnce(writer: seq<bool>, sched: seq<nat>, w: nat, q: nat, i: nat, j: nat)
    requires w < |writer| && q < |writer| && w != q && i <= j <= |sched|
    requires forall k :: i <= k <= j ==> After(writer, sched[..k]).pc[w] == WWait
    ensures Entries(writer, sched, q, i, j) <= if PastGate(After(writer, sched[..i]).pc[q]) then 1 else 0
    ensures PastGate(After(writer, sched[..j]).pc[q]) ==>
              Entries(writer, sched, q, i, j) == 0 && PastGate(After(writer, sched[..i]).pc[q])
  {
    hide After;
    if i < j {
      AfterNext(writer, sched, j);
      WriterOvertakenAtMostOnce(writer, sched, w, q, i, j - 1);
      Reachable(writer, sched[..j - 1]);
      var s := After(writer, sched[..j - 1]);
      Unique(s.pc, HoldsGate);
      CountAtLeastOne(s.pc, w, HoldsGate);
    }
  }

  // ---------------------------------------------------------------- a bound without fairness

  /** How far a reader is on its way out, from the gate on. */
  function Rank(pc: PC): nat {
    match pc
    case RLock => 0 case RInc => 1 case RTest => 2 case RWait => 3 case RUnlock => 4 case Reading => 5
    case RDec => 6 case RTestLast => 7 case RRelease => 8 case RUnlock2 => 9 case _ => 10
  }

  /** The threads that take a step from position i to j - 1 of the schedule, in order. */
  ghost function Took(writer: seq<bool>, sched: seq<nat>, i: nat, j: nat): seq<nat>
    requires i <= j <= |sched|
  {
    if i == j then []
    else
      Took(writer, sched, i, j - 1) +
      if Enabled(After(writer, sched[..j - 1]), sched[j - 1]) then [sched[j - 1]] else []
  }

  /** While writer w holds readlock and waits, whoever steps is a reader on its way out. */
  lemma OnlyReadersStep(s: State, w: nat, t: nat)
    requires Locks(s) && w < |s.pc| && s.pc[w] == WWait && Enabled(s, t) && Step(s, t).pc[w] == WWait
    ensures Rank(s.pc[t]) < 10 && Rank(Step(s, t).pc[t]) > Rank(s.pc[t])
    ensures forall q :: 0 <= q < |s.pc| && q != t ==> Step(s, t).pc[q] == s.pc[q]
  {
    hide Count;
    Unique(s.pc, HoldsGate);
    CountAtLeastOne(s.pc, w, HoldsGate);
  }

  lemma {:induction false} ReadersLeave(writer: seq<bool>, sched: seq<nat>, w: nat, q: nat, i: nat, j: nat)
    requires w < |writer| && q < |writer| && i <= j <= |sched|
    requires forall k :: i <= k <= j ==> After(writer, sched[..k]).pc[w] == WWait
    ensures Tally(Took(writer, sched, i, j), q) + Rank(After(writer, sched[..i]).pc[q])
         <= Rank(After(writer, sched[..j]).pc[q])
  {
    hide After, Tally, Rank, Locks;
    if i == j {
      TallyNone(q);
    } else {
      ReadersLeave(writer, sched, w, q, i, j - 1);
      AfterNext(writer, sched, j);
      Reachable(writer, sched[..j - 1]);
      var s, t, who := After(writer, sched[..j - 1]), sched[j - 1], Took(writer, sched, i, j - 1);
      if Enabled(s, t) { OnlyReadersStep(s, w, t); }
      TallyNext(who, t, q);
      assert who + [] == who;
    }
  }

  lemma {:induction false} TookByThreads(writer: seq<bool>, sched: seq<nat>, i: nat, j: nat)
    requires i <= j <= |sched|
    ensures forall k :: 0 <= k < |Took(writer, sched, i, j)| ==> Took(writer, sched, i, j)[k] < |writer|
  {
    hide After;
    if i < j { TookByThreads(writer, sched, i, j - 1); }
  }

  /**
   No starvation of writers past the gate: in every schedule, fair or not, at most 10 steps per thread are taken
   between a writer's Sem_wait(readlock) and its entry.
   */
  lemma WriterNotStarved(writer: seq<bool>, sched: seq<nat>, w: nat, i: nat, j: nat)
    requires w < |writer| && i <= j <= |sched|
    requires forall k :: i <= k <= j ==> After(writer, sched[..k]).pc[w] == WWait
    ensures |Took(writer, sched, i, j)| <= 10 * |writer|
  {
    hide After, Tally, Took;
    TookByThreads(writer, sched, i, j);
    forall q: nat | q < |writer| ensures Tally(Took(writer, sched, i, j), q) <= 10 {
      ReadersLeave(writer, sched, w, q, i, j);
    }
    StepsTogether(Took(writer, sched, i, j), |writer|, 10);
  }

  // ---------------------------------------------------------------- everybody can enter

  /** The statements left until a thread has been through the lock. */
  function Left(pc: PC): nat {
    match pc
    case RIdle => 0 case RUnlock2 => 1 case RRelease => 2 case RTestLast => 3 case RDec => 4 case Reading => 5
    case RUnlock => 6 case RWait => 7 case RTest => 8 case RInc => 9 case RLock => 10 case RGate => 11
    case WIdle => 0 case WRelease => 1 case Writing => 2 case WWait => 3
  }

  lemma LeftFalls(s: State, t: nat)
    requires Enabled(s, t) && !Idle(s.pc[t])
    ensures Sum(Step(s, t).pc, Left) < Sum(s.pc, Left)
  {
    hide Sum;
    var x := Step(s, t).pc[t];
    assert Step(s, t).pc == s.pc[t := x];
    SumUpdate(s.pc, t, x, Left);
  }

  lemma AfterOne(writer: seq<bool>, sched: seq<nat>, t: nat)
    requires Enabled(After(writer, sched), t)
    ensures After(writer, sched + [t]) == Step(After(writer, sched), t)
  {
    assert (sched + [t])[..|sched|] == sched;
  }

  /** Every run can be continued until nobody is in the lock. */
  lemma {:induction false} CanDrain(writer: seq<bool>, sched: seq<nat>) returns (more: seq<nat>)
    ensures forall q :: 0 <= q < |writer| ==> Idle(After(writer, sched + more).pc[q])
    decreases Sum(After(writer, sched).pc, Left)
  {
    hide After, Sum, Enabled, Step;
    if p :| 0 <= p < |writer| && !Idle(After(writer, sched).pc[p]) {
      var t := Progress(writer, sched, p);
      LeftFalls(After(writer, sched), t);
      AfterOne(writer, sched, t);
      var rest := CanDrain(writer, sched + [t]);
      more := [t] + rest;
      assert sched + more == sched + [t] + rest;
    } else {
      more := [];
      assert sched + more == sched;
    }
  }

  predicate WriterPC(pc: PC) { pc.WIdle? || pc.WWait? || pc.Writing? || pc.WRelease? }

  /** Readers stay readers, and writers writers. */
  lemma {:induction false} Roles(writer: seq<bool>, sched: seq<nat>, q: nat)
    requires q < |writer|
    ensures WriterPC(After(writer, sched).pc[q]) <==> writer[q]
  {
    if sched != [] { Roles(writer, sched[..|sched| - 1], q); }
  }

  /** The threads below k that are readers are in the critical section together, and everybody else is idle. */
  ghost predicate ReadersIn(s: State, writer: seq<bool>, k: nat) {
    && |s.pc| == |writer| && s.lock == s.readlock == 1 && s.readers >= 0
    && s.writelock == (if s.readers == 0 then 1 else 0)
    && forall q :: 0 <= q < |s.pc| ==> s.pc[q] == if writer[q] then WIdle else if q < k then Reading else RIdle
  }

  lemma NobodyIn(writer: seq<bool>, sched: seq<nat>)
    requires forall q :: 0 <= q < |writer| ==> Idle(After(writer, sched).pc[q])
    ensures ReadersIn(After(writer, sched), writer, 0) && After(writer, sched).readers == 0
  {
    hide After, Count;
    Reachable(writer, sched);
    var s := After(writer, sched);
    forall q | 0 <= q < |writer| ensures s.pc[q] == if writer[q] then WIdle else RIdle { Roles(writer, sched, q); }
    CountNone(s.pc, HoldsGate);
    CountNone(s.pc, HoldsLock);
    CountNone(s.pc, Registered);
    CountNone(s.pc, Sharing);
    CountNone(s.pc, IsWriting);
  }

  /** The state after n turns of one thread. */
  ghost function Turns(s: State, t: nat, n: nat): State {
    if n == 0 then s
    else
      var s' := Turns(s, t, n - 1);
      if Enabled(s', t) then Step(s', t) else s'
  }

  lemma Turn(s: State, t: nat, n: nat)
    requires Enabled(Turns(s, t, n), t)
    ensures Turns(s, t, n + 1) == Step(Turns(s, t, n), t)
  {
  }

  lemma NoTurn(s: State, p: nat)
    ensures Turns(s, p, 0) == s
  {
  }

  lemma {:induction false} Extend(writer: seq<bool>, sched: seq<nat>, t: nat, n: nat) returns (more: seq<nat>)
    ensures After(writer, sched + more) == Turns(After(writer, sched), t, n)
  {
    if n == 0 {
      more := [];
      assert sched + more == sched;
    } else {
      var front := Extend(writer, sched, t, n - 1);
      more := front + [t];
      assert sched + more == (sched + front) + [t];
      assert (sched + more)[..|sched + more| - 1] == sched + front;
    }
  }

  /** A reader that arrives alone, or while only readers are in, enters in seven steps of its own at most. */
  lemma ReaderWalksIn(s: State, p: nat)
    requires p < |s.pc| && s.pc[p] == RIdle && s.lock == s.readlock == 1 && s.readers >= 0
    requires s.writelock == if s.readers == 0 then 1 else 0
    ensures var n := if s.readers == 0 then 7 else 6;
            Turns(s, p, n) == s.(pc := s.pc[p := Reading], readers := s.readers + 1, writelock := 0)
  {
    hide Turns;
    ReaderCounts(s, p);
    Turn(s, p, 4);
    Turn(s, p, 5);
    if s.readers == 0 { Turn(s, p, 6); }
  }

  lemma ReaderCounts(s: State, p: nat)
    requires p < |s.pc| && s.pc[p] == RIdle && s.lock == s.readlock == 1
    ensures Turns(s, p, 4) == s.(pc := s.pc[p := RTest], readers := s.readers + 1, lock := 0)
  {
    hide Turns;
    NoTurn(s, p);
    Turn(s, p, 0);
    Turn(s, p, 1);
    Turn(s, p, 2);
    Turn(s, p, 3);
  }

  lemma {:induction false} ReadersJoin(writer: seq<bool>, sched: seq<nat>, k: nat) returns (more: seq<nat>)
    requires k <= |writer| && ReadersIn(After(writer, sched), writer, 0)
    ensures ReadersIn(After(writer, sched + more), writer, k)
  {
    hide After, Turns;
    if k == 0 {
      more := [];
      assert sched + more == sched;
    } else {
      var front := ReadersJoin(writer, sched, k - 1);
      var s := After(writer, sched + front);
      if writer[k - 1] {
        more := front;
      } else {
        ReaderWalksIn(s, k - 1);
        var walk := Extend(writer, sched + front, k - 1, if s.readers == 0 then 7 else 6);
        more := front + walk;
        assert sched + more == sched + front + walk;
      }
    }
  }

  /** Every run can be continued so that all readers are in the critical section together. */
  lemma AllReadersCanEnter(writer: seq<bool>, sched: seq<nat>) returns (more: seq<nat>)
    ensures forall q :: 0 <= q < |writer| && !writer[q] ==> After(writer, sched + more).pc[q] == Reading
  {
    hide After;
    var drain := CanDrain(writer, sched);
    NobodyIn(writer, sched + drain);
    var join := ReadersJoin(writer, sched + drain, |writer|);
    more := drain + join;
    assert sched + more == sched + drain + join;
  }

  /** Every run can be continued so that a given writer is in the critical section. */
  lemma WriterCanEnter(writer: seq<bool>, sched: seq<nat>, w: nat) returns (more: seq<nat>)
    requires w < |writer| && writer[w]
    ensures After(writer, sched + more).pc[w] == Writing
  {
    hide After, Turns;
    var drain := CanDrain(writer, sched);
    NobodyIn(writer, sched + drain);
    var s := After(writer, sched + drain);
    NoTurn(s, w);
    Turn(s, w, 0);
    Turn(s, w, 1);
    var walk := Extend(writer, sched + drain, w, 2);
    more := drain + walk;
    assert sched + more == sched + drain + walk;
  }
}

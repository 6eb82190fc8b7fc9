/**
 Whole runs of the barbershop: every run ends with all customers served or turned away, every
 customer joins each queue once, and which shops can have more customers at the chairs than chairs.
 */
module BarbershopRuns {
  import opened Counting
  import opened Barbershop
  import opened BarbershopTheorems

  // ---------------------------------------------------------------- every run ends

  /** The statements a customer has left, counting those it causes an usher and a barber to execute. */
  function CustomerWork(c: Customer): nat {
    match c.pc
    case Arrive => 35 case TestFull => 34 case Balk => 1 case Balked => 0
    case Admit => 33 case Admitted => 32 case WantSofaQ => 31 case JoinSofaQ => 30
    case UnlockSofaQ => 29 case CallUsher => 28 case AwaitSofa => 21 case WantChairQ => 20
    case JoinChairQ => 19 case UnlockChairQ => 18 case CallBarber => 17 case AwaitChair => 7
    case LeaveSofa => 6 case Pay => 5 case AwaitReceipt => 4 case WantCount => 3
    case Uncount => 2 case UnlockCount => 1 case Gone => 0
  }

  function UsherWork(u: Usher): nat {
    match u
    case UIdle => 0 case UWantQueue => 5 case UPop => 4 case UUnlock(_) => 3 case UCall(_) => 2 case UAwaitSeat => 1
  }

  function BarberWork(b: Barber): nat {
    match b
    case BIdle => 0 case BWantQueue => 8 case BPop => 7 case BUnlock(_) => 6 case BCall(_) => 5
    case BAwaitPayment => 4 case BWantTill => 3 case BLeaveTill => 2 case BGiveReceipt => 1
  }

  /** All the statements that can still be executed. */
  ghost function Work(s: State): nat {
    Sum(s.cust, CustomerWork) + Sum(s.ushers, UsherWork) + Sum(s.barbers, BarberWork) + 6 * s.arrive + 9 * s.onSofa
  }

  /** A customer's step uses up work, even when it makes work for an usher or a barber. */
  lemma CustomerWorkFalls(s: State, i: nat)
    requires CustomerEnabled(s, i)
    ensures var s' := CustomerShared(s, i);
            && CustomerWork(NextCustomer(s, i)) + 6 * s'.arrive + 9 * s'.onSofa
               < CustomerWork(s.cust[i]) + 6 * s.arrive + 9 * s.onSofa
            && s'.ushers == s.ushers && s'.barbers == s.barbers
  {
  }

  lemma CustomerWorks(s: State, i: nat)
    requires CustomerEnabled(s, i)
    ensures Work(Step(s, C(i))) < Work(s)
  {
    hide Sum, CustomerShared, NextCustomer, CustomerWork, CustomerEnabled;
    InShop(s, i);
    CustomerWorkFalls(s, i);
    SumUpdate(s.cust, i, NextCustomer(s, i), CustomerWork);
  }

  lemma InShop(s: State, i: nat)
    requires CustomerEnabled(s, i)
    ensures i < |s.cust|
  {
  }

  lemma UsherWorks(s: State, i: nat)
    requires UsherEnabled(s, i)
    ensures Work(Step(s, U(i))) < Work(s)
  {
    hide Sum;
    var s' := Step(s, U(i));
    assert s'.ushers == s.ushers[i := s'.ushers[i]];
    SumUpdate(s.ushers, i, s'.ushers[i], UsherWork);
    if s.ushers[i].UCall? {
      var e := s.ushers[i].e;
      SumUpdate(s.cust, e, s'.cust[e], CustomerWork);
    }
  }

  lemma BarberWorks(s: State, i: nat)
    requires BarberEnabled(s, i)
    ensures Work(Step(s, B(i))) < Work(s)
  {
    hide Sum;
    var s' := Step(s, B(i));
    assert s'.barbers == s.barbers[i := s'.barbers[i]];
    SumUpdate(s.barbers, i, s'.barbers[i], BarberWork);
    if s.barbers[i].BCall? {
      var e := s.barbers[i].e;
      SumUpdate(s.cust, e, s'.cust[e], CustomerWork);
    }
  }

  /** Every step of every thread uses up work. */
  lemma WorkFalls(s: State, t: Thread)
    requires Enabled(s, t)
    ensures Work(Step(s, t)) < Work(s)
  {
    hide Work, Step;
    match t
    case C(i) => CustomerWorks(s, i);
    case B(i) => BarberWorks(s, i);
    case U(i) => UsherWorks(s, i);
  }

  /** How many entries of a schedule find their thread able to step. */
  ghost function Steps(s: State, sched: seq<Thread>): nat {
    if sched == [] then 0
    else
      var front := sched[..|sched| - 1];
      Steps(s, front) + if Enabled(After(s, front), sched[|sched| - 1]) then 1 else 0
  }

  lemma {:induction false} StepsUseWork(s: State, sched: seq<Thread>)
    ensures Steps(s, sched) + Work(After(s, sched)) <= Work(s)
  {
    hide Work, Enabled, Step;
    if sched != [] {
      var front, t := sched[..|sched| - 1], sched[|sched| - 1];
      StepsUseWork(s, front);
      if Enabled(After(s, front), t) { WorkFalls(After(s, front), t); }
    }
  }

  lemma StartWork(customers: nat, chairs: nat, seats: nat, capacity: nat)
    ensures Work(Start(customers, chairs, seats, capacity)) <= 35 * customers
  {
    var s := Start(customers, chairs, seats, capacity);
    SumAtMost(s.cust, CustomerWork, 35);
    SumAtMost(s.ushers, UsherWork, 0);
    SumAtMost(s.barbers, BarberWork, 0);
  }

  /** In every run at most 35 statements per customer are executed, whatever the schedule and the number of threads. */
  lemma EveryRunEnds(customers: nat, chairs: nat, seats: nat, capacity: nat, sched: seq<Thread>)
    ensures Steps(Start(customers, chairs, seats, capacity), sched) <= 35 * customers
  {
    hide Work, Steps;
    StepsUseWork(Start(customers, chairs, seats, capacity), sched);
    StartWork(customers, chairs, seats, capacity);
  }

  /** A run in which no thread can step any more has served or turned away every customer. */
  lemma AllFinished(customers: nat, chairs: nat, seats: nat, capacity: nat, sched: seq<Thread>)
    requires chairs > 0 && seats > 0 && !Live(Run(customers, chairs, seats, capacity, sched))
    ensures var s := Run(customers, chairs, seats, capacity, sched);
            |s.cust| == customers && forall i :: 0 <= i < customers ==> Finished(s.cust[i])
  {
    hide Run, Live, Finished;
    RunInv(customers, chairs, seats, capacity, sched);
    forall i | 0 <= i < customers ensures Finished(Run(customers, chairs, seats, capacity, sched).cust[i]) {
      Progress(customers, chairs, seats, capacity, sched, i);
    }
  }

  /** Every run can be continued until all customers are served or turned away. */
  lemma {:induction false} CanFinish(customers: nat, chairs: nat, seats: nat, capacity: nat, sched: seq<Thread>)
    returns (more: seq<Thread>)
    requires chairs > 0 && seats > 0
    ensures var s := Run(customers, chairs, seats, capacity, sched + more);
            |s.cust| == customers && forall i :: 0 <= i < customers ==> Finished(s.cust[i])
    decreases Work(Run(customers, chairs, seats, capacity, sched))
  {
    hide Work, Step, Enabled, Finished;
    var s := Run(customers, chairs, seats, capacity, sched);
    if !Live(s) {
      more := [];
      assert sched + more == sched;
      AllFinished(customers, chairs, seats, capacity, sched);
    } else {
      var t :| Enabled(s, t);
      WorkFalls(s, t);
      assert (sched + [t])[..|sched|] == sched;
      var rest := CanFinish(customers, chairs, seats, capacity, sched + [t]);
      more := [t] + rest;
      assert sched + more == sched + [t] + rest;
    }
  }

  // ---------------------------------------------------------------- every customer joins once

  predicate HasJoinedSofa(pc: CustomerPC) {
    pc.UnlockSofaQ? || pc.CallUsher? || pc.AwaitSofa? || pc.WantChairQ? || pc.JoinChairQ? || HasJoinedChair(pc)
  }

  predicate HasJoinedChair(pc: CustomerPC) {
    pc.UnlockChairQ? || pc.CallBarber? || pc.AwaitChair? || pc.LeaveSofa? || pc.Pay? || pc.AwaitReceipt?
    || pc.WantCount? || pc.Uncount? || pc.UnlockCount? || pc.Gone?
  }

  ghost predicate SofaOnce(s: State, c: nat)
    requires c < |s.cust|
  {
    multiset(s.sofaQ.joined)[c] == if HasJoinedSofa(s.cust[c].pc) then 1 else 0
  }

  ghost predicate ChairOnce(s: State, c: nat)
    requires c < |s.cust|
  {
    multiset(s.chairQ.joined)[c] == if HasJoinedChair(s.cust[c].pc) then 1 else 0
  }

  ghost predicate JoinedOnce(s: State, c: nat)
    requires c < |s.cust|
  {
    SofaOnce(s, c) && ChairOnce(s, c)
  }

  lemma CustomerSofaOnce(s: State, i: nat, c: nat)
    requires CustomerEnabled(s, i) && c < |s.cust| && SofaOnce(s, c)
    ensures SofaOnce(Step(s, C(i)), c)
  {
    var s', pc := Step(s, C(i)), s.cust[i].pc;
    assert s'.sofaQ.joined == if pc.JoinSofaQ? then s.sofaQ.joined + [i] else s.sofaQ.joined;
  }

  lemma CustomerChairOnce(s: State, i: nat, c: nat)
    requires CustomerEnabled(s, i) && c < |s.cust| && ChairOnce(s, c)
    ensures ChairOnce(Step(s, C(i)), c)
  {
    var s', pc := Step(s, C(i)), s.cust[i].pc;
    assert s'.chairQ.joined == if pc.JoinChairQ? then s.chairQ.joined + [i] else s.chairQ.joined;
  }

  /** Ushers and barbers let nobody join. */
  lemma ServersJoinNobody(s: State, t: Thread, c: nat)
    requires Enabled(s, t) && !t.C? && c < |s.cust|
    ensures var s' := Step(s, t);
            && |s'.cust| == |s.cust| && s'.cust[c].pc == s.cust[c].pc
            && s'.sofaQ.joined == s.sofaQ.joined && s'.chairQ.joined == s.chairQ.joined
  {
  }

  lemma JoinedOnceKept(s: State, t: Thread, c: nat)
    requires Enabled(s, t) && c < |s.cust| && JoinedOnce(s, c)
    ensures |Step(s, t).cust| == |s.cust| && JoinedOnce(Step(s, t), c)
  {
    hide HasJoinedSofa, HasJoinedChair, BarberStep, UsherStep, CustomerShared, NextCustomer;
    if t.C? {
      CustomerSofaOnce(s, t.i, c);
      CustomerChairOnce(s, t.i, c);
    } else {
      ServersJoinNobody(s, t, c);
    }
  }

  /** In every run every customer joins each queue once: it is in the history exactly if it is past the insertion. */
  lemma {:induction false} JoinsOnce(customers: nat, chairs: nat, seats: nat, capacity: nat, sched: seq<Thread>, c: nat)
    requires c < customers
    ensures var s := Run(customers, chairs, seats, capacity, sched); |s.cust| == customers && JoinedOnce(s, c)
  {
    hide Enabled, Step, JoinedOnce;
    if sched == [] {
      StartJoined(customers, chairs, seats, capacity, c);
    } else {
      var front, t := sched[..|sched| - 1], sched[|sched| - 1];
      JoinsOnce(customers, chairs, seats, capacity, front, c);
      var s := Run(customers, chairs, seats, capacity, front);
      if Enabled(s, t) { JoinedOnceKept(s, t, c); }
    }
  }

  lemma StartJoined(customers: nat, chairs: nat, seats: nat, capacity: nat, c: nat)
    requires c < customers
    ensures JoinedOnce(Start(customers, chairs, seats, capacity), c)
  {
  }

  // ---------------------------------------------------------------- macro steps

  /** The state after thread t has been scheduled n times in a row. */
  ghost function Turns(s: State, t: Thread, n: nat): State {
    if n == 0 then s
    else
      var s' := Turns(s, t, n - 1);
      if Enabled(s', t) then Step(s', t) else s'
  }

  lemma Turn(s: State, t: Thread, n: nat)
    requires Enabled(Turns(s, t, n), t)
    ensures Turns(s, t, n + 1) == Step(Turns(s, t, n), t)
  {
  }

  lemma NoTurn(s: State, t: Thread)
    ensures Turns(s, t, 0) == s
  {
  }

  /** A schedule continued by n turns of one thread. */
  lemma {:induction false} Extend(s: State, sched: seq<Thread>, t: Thread, n: nat) returns (sched': seq<Thread>)
    ensures After(s, sched') == Turns(After(s, sched), t, n)
  {
    if n == 0 {
      sched' := sched;
    } else {
      var front := Extend(s, sched, t, n - 1);
      sched' := front + [t];
      assert sched'[..|sched'| - 1] == front;
    }
  }

  /** A customer is admitted. */
  lemma Enters(s: State, i: nat)
    requires i < |s.cust| && s.cust[i] == Customer(Arrive, 0, 0) && s.numMutex > 0 && s.num != s.capacity
    ensures Turns(s, C(i), 4) == s.(cust := s.cust[i := Customer(WantSofaQ, 0, 0)], num := s.num + 1)
  {
    hide Turns, BarberStep, UsherStep, BarberEnabled, UsherEnabled, Push, Pop;
    NoTurn(s, C(i));
    Turn(s, C(i), 0);
    Turn(s, C(i), 1);
    Turn(s, C(i), 2);
    Turn(s, C(i), 3);
  }

  /** It joins the sofa queue and calls an usher. */
  lemma Queues(s: State, i: nat)
    requires i < |s.cust| && s.cust[i] == Customer(WantSofaQ, 0, 0) && s.sofaMutex > 0
    ensures Turns(s, C(i), 4) == s.(cust := s.cust[i := Customer(AwaitSofa, 0, 0)], sofaQ := Push(s.sofaQ, i),
                                    arrive := s.arrive + 1)
  {
    hide Turns, BarberStep, UsherStep, BarberEnabled, UsherEnabled, Push, Pop;
    NoTurn(s, C(i));
    Turn(s, C(i), 0);
    Turn(s, C(i), 1);
    Turn(s, C(i), 2);
    Turn(s, C(i), 3);
  }

  /** A schedule continued until customer i waits for the sofa. */
  lemma Arrives(s0: State, sched: seq<Thread>, i: nat) returns (sched': seq<Thread>)
    requires var s := After(s0, sched);
             && i < |s.cust| && s.cust[i] == Customer(Arrive, 0, 0)
             && s.numMutex > 0 && s.num != s.capacity && s.sofaMutex > 0
    ensures var s := After(s0, sched);
            After(s0, sched') == s.(cust := s.cust[i := Customer(AwaitSofa, 0, 0)], num := s.num + 1,
                                    sofaQ := Push(s.sofaQ, i), arrive := s.arrive + 1)
  {
    hide After, Turns, Push;
    Enters(After(s0, sched), i);
    var mid := Extend(s0, sched, C(i), 4);
    Queues(After(s0, mid), i);
    sched' := Extend(s0, mid, C(i), 4);
  }

  /** An usher takes the first customer from the queue. */
  lemma Fetches(s: State, u: nat)
    requires u < |s.ushers| && s.ushers[u] == UIdle && s.arrive > 0 && s.sofaMutex > 0 && s.sofaQ.waiting != []
    ensures Turns(s, U(u), 4) == s.(ushers := s.ushers[u := UCall(s.sofaQ.waiting[0])], sofaQ := Pop(s.sofaQ),
                                    arrive := s.arrive - 1)
  {
    hide Turns, BarberStep, BarberEnabled, CustomerShared, NextCustomer, CustomerEnabled, Push, Pop;
    NoTurn(s, U(u));
    Turn(s, U(u), 0);
    Turn(s, U(u), 1);
    Turn(s, U(u), 2);
    Turn(s, U(u), 3);
  }

  /** A customer on the sofa joins the chair queue and calls a barber. */
  lemma QueuesForChair(s: State, i: nat)
    requires i < |s.cust| && s.cust[i] == Customer(WantChairQ, 0, 0) && s.chairMutex > 0
    ensures Turns(s, C(i), 4) == s.(cust := s.cust[i := Customer(AwaitChair, 0, 0)], chairQ := Push(s.chairQ, i),
                                    onSofa := s.onSofa + 1)
  {
    hide Turns, BarberStep, UsherStep, BarberEnabled, UsherEnabled, Push, Pop;
    NoTurn(s, C(i));
    Turn(s, C(i), 0);
    Turn(s, C(i), 1);
    Turn(s, C(i), 2);
    Turn(s, C(i), 3);
  }

  /** A barber takes the first customer from the queue. */
  lemma Takes(s: State, b: nat)
    requires b < |s.barbers| && s.barbers[b] == BIdle && s.onSofa > 0 && s.chairMutex > 0 && s.chairQ.waiting != []
    ensures Turns(s, B(b), 4) == s.(barbers := s.barbers[b := BCall(s.chairQ.waiting[0])], chairQ := Pop(s.chairQ),
                                    onSofa := s.onSofa - 1)
  {
    hide Turns, UsherStep, UsherEnabled, CustomerShared, NextCustomer, CustomerEnabled, Push, Pop;
    NoTurn(s, B(b));
    Turn(s, B(b), 0);
    Turn(s, B(b), 1);
    Turn(s, B(b), 2);
    Turn(s, B(b), 3);
  }

  /** A customer that was called leaves the sofa and pays. */
  lemma Pays(s: State, i: nat)
    requires i < |s.cust| && s.cust[i] == Customer(AwaitChair, 0, 1)
    ensures Turns(s, C(i), 3) == s.(cust := s.cust[i := Customer(AwaitReceipt, 0, 0)], leaveSofa := s.leaveSofa + 1,
                                    payment := s.payment + 1)
  {
    hide Turns, BarberStep, UsherStep, BarberEnabled, UsherEnabled, Push, Pop;
    NoTurn(s, C(i));
    Turn(s, C(i), 0);
    Turn(s, C(i), 1);
    Turn(s, C(i), 2);
  }

  /** A barber accepts a payment and writes the receipt. */
  lemma Accepts(s: State, b: nat)
    requires b < |s.barbers| && s.barbers[b] == BAwaitPayment && s.payment > 0 && s.cashier > 0
    ensures Turns(s, B(b), 4) == s.(barbers := s.barbers[b := BIdle], payment := s.payment - 1,
                                    receipt := s.receipt + 1)
  {
    hide Turns, UsherStep, UsherEnabled, CustomerShared, NextCustomer, CustomerEnabled, Push, Pop;
    NoTurn(s, B(b));
    Turn(s, B(b), 0);
    Turn(s, B(b), 1);
    Turn(s, B(b), 2);
    Turn(s, B(b), 3);
  }

  lemma One(s: State, t: Thread)
    requires Enabled(s, t)
    ensures Turns(s, t, 1) == Step(s, t)
  {
    hide Enabled, Step;
    NoTurn(s, t);
    Turn(s, t, 0);
  }

  lemma NoSchedule(s: State)
    ensures After(s, []) == s
  {
  }

  /** A schedule continued until usher u has called customer i, who has then queued for a chair. */
  lemma TakesSeat(s0: State, sched: seq<Thread>, u: nat, i: nat) returns (sched': seq<Thread>)
    requires var s := After(s0, sched);
             && u < |s.ushers| && s.ushers[u] == UIdle && s.arrive > 0 && s.sofaMutex > 0 && s.chairMutex > 0
             && i < |s.cust| && s.cust[i] == Customer(AwaitSofa, 0, 0) && s.sofaQ.waiting == [i]
    ensures var s, s' := After(s0, sched), After(s0, sched');
            && s'.sofaQ.waiting == []
            && s' == s.(cust := s.cust[i := Customer(AwaitChair, 0, 0)], ushers := s.ushers[u := UAwaitSeat],
                        sofaQ := s'.sofaQ, chairQ := Push(s.chairQ, i), arrive := s.arrive - 1, onSofa := s.onSofa + 1)
  {
    hide After, Turns, Push;
    Fetches(After(s0, sched), u);
    var a := Extend(s0, sched, U(u), 4);
    One(After(s0, a), U(u));
    var b := Extend(s0, a, U(u), 1);
    One(After(s0, b), C(i));
    var c := Extend(s0, b, C(i), 1);
    QueuesForChair(After(s0, c), i);
    sched' := Extend(s0, c, C(i), 4);
  }

  // ---------------------------------------------------------------- more customers than chairs

  /** Customers that hold a chair, or have paid and wait for the receipt. */
  ghost function AtChairs(s: State): nat { Count(s.cust, InChair) + Count(s.cust, AwaitsReceipt) }

  /** They are all inside. */
  lemma AtChairsInside(s: State)
    requires Tokens(s)
    ensures AtChairs(s) <= Count(s.cust, Inside)
  {
    hide Count;
    forall i | 0 <= i < |s.cust|
      ensures InChair(s.cust[i]) || AwaitsReceipt(s.cust[i]) ==> Inside(s.cust[i])
      ensures !(InChair(s.cust[i]) && AwaitsReceipt(s.cust[i]))
    {
      assert ChairToken(s, i);
    }
    CountWithin(s.cust, InChair, AwaitsReceipt, Inside);
  }

  /** Without barbers there are no receipts. */
  lemma {:induction false} NoReceipts(customers: nat, seats: nat, capacity: nat, sched: seq<Thread>)
    ensures var s := Run(customers, 0, seats, capacity, sched); s.receipt == 0 && |s.barbers| == 0
  {
    if sched != [] { NoReceipts(customers, seats, capacity, sched[..|sched| - 1]); }
  }

  predicate BeforeSofa(pc: CustomerPC) {
    pc.Arrive? || pc.TestFull? || pc.Balk? || pc.Balked? || pc.Admit? || pc.Admitted? || pc.WantSofaQ?
    || pc.JoinSofaQ? || pc.UnlockSofaQ? || pc.CallUsher? || pc.AwaitSofa?
  }

  /** Without ushers nobody gets past the sofa queue. */
  lemma {:induction false} NobodySits(customers: nat, chairs: nat, capacity: nat, sched: seq<Thread>, c: nat)
    requires c < customers
    ensures var s := Run(customers, chairs, 0, capacity, sched); |s.cust| == customers && BeforeSofa(s.cust[c].pc)
  {
    hide Inv;
    RunInv(customers, chairs, 0, capacity, sched);
    if sched != [] {
      var front, t := sched[..|sched| - 1], sched[|sched| - 1];
      NobodySits(customers, chairs, capacity, front, c);
      RunInv(customers, chairs, 0, capacity, front);
      var s := Run(customers, chairs, 0, capacity, front);
      NotCalled(s, c);
    }
  }

  lemma NotCalled(s: State, c: nat)
    requires Inv(s) && |s.ushers| == 0 && c < |s.cust|
    ensures s.cust[c].sofaSem == 0
  {
    if s.cust[c].sofaSem > 0 { CountAtLeastOne(s.cust, c, OnSofa); }
  }

  /** The chairs suffice for customers in or at the chairs in every run of such a shop. */
  lemma ChairsSuffice(customers: nat, chairs: nat, seats: nat, capacity: nat, sched: seq<Thread>)
    requires customers <= chairs || capacity <= chairs || chairs == 0 || seats == 0
    ensures AtChairs(Run(customers, chairs, seats, capacity, sched)) <= chairs
  {
    hide Run, Count;
    var s := Run(customers, chairs, seats, capacity, sched);
    RunInv(customers, chairs, seats, capacity, sched);
    AtChairsInside(s);
    CountAll(s.cust, Inside);
    if chairs == 0 {
      NoReceipts(customers, seats, capacity, sched);
      CountNone(s.barbers, Cuts);
      CountNone(s.barbers, Cashes);
    } else if seats == 0 {
      forall c | 0 <= c < customers ensures !InChair(s.cust[c]) && !AwaitsReceipt(s.cust[c]) {
        NobodySits(customers, chairs, capacity, sched, c);
        assert ChairToken(s, c);
      }
      CountNone(s.cust, InChair);
      CountNone(s.cust, AwaitsReceipt);
    }
  }

  /** Nobody waits in a queue, and usher 0 is idle. */
  predicate Calm(s: State) {
    && s.numMutex == s.sofaMutex == s.chairMutex == s.cashier == 1
    && s.sofaQ.waiting == [] && s.chairQ.waiting == []
    && |s.ushers| > 0 && s.ushers[0] == UIdle
  }

  /** A schedule continued until a customer has come in and barber b has called it. */
  lemma Chaired(s0: State, sched: seq<Thread>, i: nat, b: nat) returns (sched': seq<Thread>)
    requires var s := After(s0, sched);
             && Calm(s) && i < |s.cust| && s.cust[i] == Customer(Arrive, 0, 0) && s.num != s.capacity
             && b < |s.barbers| && s.barbers[b] == BIdle
    ensures var s, s' := After(s0, sched), After(s0, sched');
            && s'.sofaQ.waiting == [] && s'.chairQ.waiting == []
            && s' == s.(cust := s.cust[i := Customer(AwaitChair, 0, 1)], barbers := s.barbers[b := BAwaitPayment],
                        ushers := s.ushers[0 := UAwaitSeat], num := s.num + 1, sofaQ := s'.sofaQ, chairQ := s'.chairQ)
  {
    hide After, Turns;
    var a := Arrives(s0, sched, i);
    var c := TakesSeat(s0, a, 0, i);
    Takes(After(s0, c), b);
    var d := Extend(s0, c, B(b), 4);
    One(After(s0, d), B(b));
    sched' := Extend(s0, d, B(b), 1);
  }

  /** Customer 0 has paid and its receipt lies about; the next k customers sit with the first k barbers. */
  ghost predicate Crowded(s: State, k: nat) {
    && Calm(s) && s.receipt == 1 && s.num == k + 1 && k <= |s.barbers|
    && (forall c :: k < c < |s.cust| ==> s.cust[c] == Customer(Arrive, 0, 0))
    && (forall b :: 0 <= b < k ==> s.barbers[b] == BAwaitPayment)
    && (forall b :: k <= b < |s.barbers| ==> s.barbers[b] == BIdle)
  }

  /** One more customer takes a chair; the usher is free again. */
  lemma CrowdsMore(s0: State, sched: seq<Thread>, k: nat) returns (sched': seq<Thread>)
    requires var s := After(s0, sched); Crowded(s, k) && k < |s.barbers| && k + 1 < |s.cust| && k + 1 < s.capacity
    ensures var s' := After(s0, sched'); Crowded(s', k + 1) && SameShop(After(s0, sched), s')
  {
    hide After, Turns;
    var i := k + 1;
    var a := Chaired(s0, sched, i, k);
    One(After(s0, a), C(i));
    var b := Extend(s0, a, C(i), 1);
    One(After(s0, b), C(i));
    var c := Extend(s0, b, C(i), 1);
    One(After(s0, c), U(0));
    sched' := Extend(s0, c, U(0), 1);
  }

  lemma FirstPays(customers: nat, chairs: nat, seats: nat, capacity: nat) returns (sched: seq<Thread>)
    requires customers > 0 && capacity > 0 && chairs > 0 && seats > 0
    ensures var s := Run(customers, chairs, seats, capacity, sched);
            Crowded(s, 0) && |s.barbers| == chairs && |s.cust| == customers && s.capacity == capacity
  {
    hide After, Turns;
    var s0 := Start(customers, chairs, seats, capacity);
    NoSchedule(s0);
    sched := Chaired(s0, [], 0, 0);
    Pays(After(s0, sched), 0);
    sched := Extend(s0, sched, C(0), 3);
    Accepts(After(s0, sched), 0);
    sched := Extend(s0, sched, B(0), 4);
    One(After(s0, sched), U(0));
    sched := Extend(s0, sched, U(0), 1);
  }

  lemma {:induction false} Crowds(customers: nat, chairs: nat, seats: nat, capacity: nat, k: nat)
    returns (sched: seq<Thread>)
    requires customers > k && capacity > k && k <= chairs && chairs > 0 && seats > 0
    ensures var s := Run(customers, chairs, seats, capacity, sched);
            Crowded(s, k) && |s.barbers| == chairs && |s.cust| == customers && s.capacity == capacity
  {
    hide After, Crowded;
    if k == 0 {
      sched := FirstPays(customers, chairs, seats, capacity);
    } else {
      sched := Crowds(customers, chairs, seats, capacity, k - 1);
      sched := CrowdsMore(Start(customers, chairs, seats, capacity), sched, k - 1);
    }
  }

  /** Customer 0 leaves its receipt lying while as many others as there are chairs sit down. */
  lemma ChairsExceeded(customers: nat, chairs: nat, seats: nat, capacity: nat) returns (sched: seq<Thread>)
    requires customers > chairs && capacity > chairs && chairs > 0 && seats > 0
    ensures AtChairs(Run(customers, chairs, seats, capacity, sched)) == chairs + 1
  {
    hide Run, Count;
    sched := Crowds(customers, chairs, seats, capacity, chairs);
    var s := Run(customers, chairs, seats, capacity, sched);
    SeatsSuffice(customers, chairs, seats, capacity, sched);
    CountAll(s.barbers, Cuts);
  }

  /**
   In every run the customers in a chair or waiting for a receipt fit the chairs exactly if the shop is one in
   which no more customers than chairs can be inside, or nobody can be served at all.
   */
  lemma ChairsSufficeIff(customers: nat, chairs: nat, seats: nat, capacity: nat)
    ensures (forall sched :: AtChairs(Run(customers, chairs, seats, capacity, sched)) <= chairs) <==>
            customers <= chairs || capacity <= chairs || chairs == 0 || seats == 0
  {
    hide Run, AtChairs;
    if customers <= chairs || capacity <= chairs || chairs == 0 || seats == 0 {
      forall sched ensures AtChairs(Run(customers, chairs, seats, capacity, sched)) <= chairs {
        ChairsSuffice(customers, chairs, seats, capacity, sched);
      }
    } else {
      var sched := ChairsExceeded(customers, chairs, seats, capacity);
    }
  }

  // ---------------------------------------------------------------- who is turned away

  predicate TurnedAway(c: Customer) { c.pc.Balk? || c.pc.Balked? }

  /** A customer that tests a shop with room for all finds room. */
  lemma RoomForAll(s: State, i: nat)
    requires Inv(s) && i < |s.cust| && s.cust[i].pc == TestFull && |s.cust| <= s.capacity
    ensures s.num < s.capacity
  {
    hide Count;
    CountAll(s.cust, Inside);
    assert !Inside(s.cust[i]);
  }

  /** In a shop with room for all its customers nobody is ever turned away. */
  lemma {:induction false} NobodyTurnedAway(customers: nat, chairs: nat, seats: nat, capacity: nat,
                                            sched: seq<Thread>, c: nat)
    requires customers <= capacity && c < customers
    ensures var s := Run(customers, chairs, seats, capacity, sched); |s.cust| == customers && !TurnedAway(s.cust[c])
  {
    hide Inv, BarberStep, UsherStep;
    RunInv(customers, chairs, seats, capacity, sched);
    if sched != [] {
      var front, t := sched[..|sched| - 1], sched[|sched| - 1];
      NobodyTurnedAway(customers, chairs, seats, capacity, front, c);
      RunInv(customers, chairs, seats, capacity, front);
      var s := Run(customers, chairs, seats, capacity, front);
      if s.cust[c].pc == TestFull { RoomForAll(s, c); }
      if Enabled(s, t) && !t.C? { ServersJoinNobody(s, t, c); }
    }
  }

  /** With a barber, an usher and room for all, every customer is served in the end. */
  lemma AllServed(customers: nat, chairs: nat, seats: nat, capacity: nat, sched: seq<Thread>)
    requires chairs > 0 && seats > 0 && customers <= capacity && !Live(Run(customers, chairs, seats, capacity, sched))
    ensures var s := Run(customers, chairs, seats, capacity, sched);
            |s.cust| == customers && forall i :: 0 <= i < customers ==> s.cust[i].pc == Gone
  {
    hide Run, Live;
    AllFinished(customers, chairs, seats, capacity, sched);
    forall i | 0 <= i < customers ensures Run(customers, chairs, seats, capacity, sched).cust[i].pc == Gone {
      NobodyTurnedAway(customers, chairs, seats, capacity, sched, i);
    }
  }

  /** A shop turns somebody away in some run exactly if it has more customers than room. */
  lemma TurnsAwayIff(customers: nat, chairs: nat, seats: nat, capacity: nat)
    ensures (exists sched, c: nat :: c < customers && SentOff(customers, chairs, seats, capacity, sched, c)) <==>
            customers > capacity
  {
    hide Run;
    if customers > capacity {
      var sched := FillsUp(customers, chairs, seats, capacity, capacity);
      var s0 := Start(customers, chairs, seats, capacity);
      sched := OneTooMany(s0, sched, capacity);
      RunInv(customers, chairs, seats, capacity, sched);
      RunIs(customers, chairs, seats, capacity, sched);
      assert SentOff(customers, chairs, seats, capacity, sched, capacity);
    } else {
      forall sched, c: nat | c < customers ensures !SentOff(customers, chairs, seats, capacity, sched, c) {
        NobodyTurnedAway(customers, chairs, seats, capacity, sched, c);
      }
    }
  }

  ghost predicate SentOff(customers: nat, chairs: nat, seats: nat, capacity: nat, sched: seq<Thread>, c: nat) {
    var s := Run(customers, chairs, seats, capacity, sched);
    c < |s.cust| && TurnedAway(s.cust[c])
  }

  lemma RunIs(customers: nat, chairs: nat, seats: nat, capacity: nat, sched: seq<Thread>)
    ensures Run(customers, chairs, seats, capacity, sched) == After(Start(customers, chairs, seats, capacity), sched)
  {
  }

  /** The first k customers are in, the others have not come yet. */
  lemma {:induction false} FillsUp(customers: nat, chairs: nat, seats: nat, capacity: nat, k: nat)
    returns (sched: seq<Thread>)
    requires k <= capacity && k <= customers
    ensures var s := After(Start(customers, chairs, seats, capacity), sched);
            && |s.cust| == customers && s.num == k && s.capacity == capacity && s.numMutex == s.sofaMutex == 1
            && forall c :: k <= c < customers ==> s.cust[c] == Customer(Arrive, 0, 0)
  {
    hide After;
    var s0 := Start(customers, chairs, seats, capacity);
    if k == 0 {
      sched := [];
      NoSchedule(s0);
    } else {
      sched := FillsUp(customers, chairs, seats, capacity, k - 1);
      sched := Arrives(s0, sched, k - 1);
    }
  }

  lemma OneTooMany(s0: State, sched: seq<Thread>, i: nat) returns (sched': seq<Thread>)
    requires var s := After(s0, sched);
             i < |s.cust| && s.cust[i] == Customer(Arrive, 0, 0) && s.numMutex == 1 && s.num == s.capacity
    ensures var s' := After(s0, sched'); i < |s'.cust| && TurnedAway(s'.cust[i])
  {
    hide After, Turns;
    One(After(s0, sched), C(i));
    var a := Extend(s0, sched, C(i), 1);
    One(After(s0, a), C(i));
    sched' := Extend(s0, a, C(i), 1);
  }
}

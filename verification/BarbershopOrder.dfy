/**
 In which order the ushers and barbers of the barbershop call customers, compared with the order
 in which they took them from the queues.
 */
module BarbershopOrder {
  import opened Wrappers
  import opened Counting
  import opened Barbershop
  import opened BarbershopTheorems
  import opened BarbershopRuns

  // ---------------------------------------------------------------- the order of the calls

  /** Everybody called so far was called in the order in which they were taken from the queue. */
  predicate CallsInOrder(q: Queue) { q.called <= q.served }

  /** Whom an usher or a barber has taken from the queue and not called yet. */
  function UTaken(u: Usher): Option<nat> {
    if u.UUnlock? || u.UCall? then Some(u.e) else None
  }

  function BTaken(b: Barber): Option<nat> {
    if b.BUnlock? || b.BCall? then Some(b.e) else None
  }

  ghost function UHeld(s: State): (h: seq<Option<nat>>)
    ensures |h| == |s.ushers|
  {
    seq(|s.ushers|, i requires 0 <= i < |s.ushers| => UTaken(s.ushers[i]))
  }

  ghost function BHeld(s: State): (h: seq<Option<nat>>)
    ensures |h| == |s.barbers|
  {
    seq(|s.barbers|, i requires 0 <= i < |s.barbers| => BTaken(s.barbers[i]))
  }

  /** At most one of them holds a customer. */
  ghost predicate Alone(held: seq<Option<nat>>) {
    forall i, j :: 0 <= i < j < |held| ==> held[i].None? || held[j].None?
  }

  /** Taken from the queue are those called, in that order, and then the one held, if any. */
  ghost predicate Ordered(q: Queue, held: seq<Option<nat>>) {
    && (forall i :: 0 <= i < |held| && held[i].Some? ==> q.served == q.called + [held[i].value])
    && ((forall i :: 0 <= i < |held| ==> held[i].None?) ==> q.served == q.called)
  }

  lemma TakingKeepsOrder(q: Queue, held: seq<Option<nat>>, i: nat, q': Queue, e: nat)
    requires Ordered(q, held) && i < |held| && held[i].None? && Alone(held[i := Some(e)])
    requires q'.served == q.served + [e] && q'.called == q.called
    ensures Ordered(q', held[i := Some(e)])
  {
    var held' := held[i := Some(e)];
    forall j | 0 <= j < |held| ensures held[j].None? {
      assert held'[i].Some? && (j != i ==> held'[j] == held[j]);
    }
  }

  lemma CallingKeepsOrder(q: Queue, held: seq<Option<nat>>, i: nat, q': Queue, e: nat)
    requires Ordered(q, held) && i < |held| && held[i] == Some(e) && Alone(held)
    requires q'.served == q.served && q'.called == q.called + [e]
    ensures Ordered(q', held[i := None])
  {
    assert forall j :: 0 <= j < |held| && j != i ==> held[j].None?;
  }

  lemma SameHistory(q: Queue, q': Queue, held: seq<Option<nat>>)
    requires Ordered(q, held) && q'.served == q.served && q'.called == q.called
    ensures Ordered(q', held)
  {
  }

  /** Only an usher's own steps change who is held by ushers, and the history of service at the sofa. */
  lemma OthersLeaveSofa(s: State, t: Thread)
    requires Enabled(s, t) && !t.U?
    ensures var s' := Step(s, t);
            s'.ushers == s.ushers && s'.sofaQ.served == s.sofaQ.served && s'.sofaQ.called == s.sofaQ.called
  {
  }

  lemma OthersLeaveChairs(s: State, t: Thread)
    requires Enabled(s, t) && !t.B?
    ensures var s' := Step(s, t);
            s'.barbers == s.barbers && s'.chairQ.served == s.chairQ.served && s'.chairQ.called == s.chairQ.called
  {
  }

  lemma UsherOrderStep(s: State, i: nat)
    requires UsherEnabled(s, i) && Ordered(s.sofaQ, UHeld(s)) && Alone(UHeld(s)) && Alone(UHeld(UsherStep(s, i)))
    ensures Ordered(UsherStep(s, i).sofaQ, UHeld(UsherStep(s, i)))
  {
    hide Ordered, Alone;
    var s', h, h' := UsherStep(s, i), UHeld(s), UHeld(UsherStep(s, i));
    assert h' == h[i := h'[i]];
    if s.ushers[i].UPop? {
      TakingKeepsOrder(s.sofaQ, h, i, s'.sofaQ, s.sofaQ.waiting[0]);
    } else if s.ushers[i].UCall? {
      CallingKeepsOrder(s.sofaQ, h, i, s'.sofaQ, s.ushers[i].e);
    } else {
      assert h' == h;
      SameHistory(s.sofaQ, s'.sofaQ, h);
    }
  }

  lemma BarberOrderStep(s: State, i: nat)
    requires BarberEnabled(s, i) && Ordered(s.chairQ, BHeld(s)) && Alone(BHeld(s)) && Alone(BHeld(BarberStep(s, i)))
    ensures Ordered(BarberStep(s, i).chairQ, BHeld(BarberStep(s, i)))
  {
    hide Ordered, Alone;
    var s', h, h' := BarberStep(s, i), BHeld(s), BHeld(BarberStep(s, i));
    assert h' == h[i := h'[i]];
    if s.barbers[i].BPop? {
      TakingKeepsOrder(s.chairQ, h, i, s'.chairQ, s.chairQ.waiting[0]);
    } else if s.barbers[i].BCall? {
      CallingKeepsOrder(s.chairQ, h, i, s'.chairQ, s.barbers[i].e);
    } else {
      assert h' == h;
      SameHistory(s.chairQ, s'.chairQ, h);
    }
  }

  lemma SofaOrderStep(s: State, t: Thread)
    requires Enabled(s, t) && Ordered(s.sofaQ, UHeld(s)) && Alone(UHeld(s)) && Alone(UHeld(Step(s, t)))
    ensures Ordered(Step(s, t).sofaQ, UHeld(Step(s, t)))
  {
    hide Ordered, Alone, BarberStep, UsherStep, CustomerShared, NextCustomer;
    if t.U? {
      UsherOrderStep(s, t.i);
    } else {
      OthersLeaveSofa(s, t);
      SameHistory(s.sofaQ, Step(s, t).sofaQ, UHeld(s));
    }
  }

  lemma ChairOrderStep(s: State, t: Thread)
    requires Enabled(s, t) && Ordered(s.chairQ, BHeld(s)) && Alone(BHeld(s)) && Alone(BHeld(Step(s, t)))
    ensures Ordered(Step(s, t).chairQ, BHeld(Step(s, t)))
  {
    hide Ordered, Alone, BarberStep, UsherStep, CustomerShared, NextCustomer;
    if t.B? {
      BarberOrderStep(s, t.i);
    } else {
      OthersLeaveChairs(s, t);
      SameHistory(s.chairQ, Step(s, t).chairQ, BHeld(s));
    }
  }

  lemma OrderedCalls(q: Queue, held: seq<Option<nat>>)
    requires Ordered(q, held)
    ensures CallsInOrder(q)
  {
    if i :| 0 <= i < |held| && held[i].Some? {
      assert q.served == q.called + [held[i].value];
    }
  }

  /** The shop never has two customers inside. */
  predicate OneAtATime(customers: nat, capacity: int) { customers <= 1 || capacity <= 1 }

  lemma NotTwoInside(s: State, d: nat, e: nat)
    requires Numbers(s) && d < |s.cust| && e < |s.cust| && d != e && Inside(s.cust[d]) && Inside(s.cust[e])
    ensures !OneAtATime(|s.cust|, s.capacity)
  {
    hide Count, Inside;
    CountAtLeastTwo(s.cust, if d < e then d else e, if d < e then e else d, Inside);
  }

  /** Two ushers hold two customers that both wait for the sofa. */
  lemma UshersHoldTwo(s: State, i: nat, j: nat)
    requires Inv(s) && i < j < |s.ushers| && UHeld(s)[i].Some? && UHeld(s)[j].Some?
    ensures !OneAtATime(|s.cust|, s.capacity)
  {
    hide Count, Mutexes, Numbers, Announced, Places;
    var d, e := UHeld(s)[i].value, UHeld(s)[j].value;
    assert UKnown(s.ushers[i], |s.cust|) && UKnown(s.ushers[j], |s.cust|);
    assert SofaToken(s, d) && SofaToken(s, e);
    CountAtLeastOne(s.ushers, i, UBrings(d));
    CountAtLeastOne(s.ushers, j, UBrings(e));
    if d == e { CountAtLeastTwo(s.ushers, i, j, UBrings(d)); }
    NotTwoInside(s, d, e);
  }

  /** Two barbers hold two customers that both still sit on the sofa. */
  lemma BarbersHoldTwo(s: State, i: nat, j: nat)
    requires Inv(s) && i < j < |s.barbers| && BHeld(s)[i].Some? && BHeld(s)[j].Some?
    ensures !OneAtATime(|s.cust|, s.capacity) && Count(s.cust, OnSofa) >= 2
  {
    hide Count, Mutexes, Numbers, Announced, Places;
    var d, e := BHeld(s)[i].value, BHeld(s)[j].value;
    assert BKnown(s.barbers[i], |s.cust|) && BKnown(s.barbers[j], |s.cust|);
    assert ChairToken(s, d) && ChairToken(s, e);
    CountAtLeastOne(s.barbers, i, BBrings(d));
    CountAtLeastOne(s.barbers, j, BBrings(e));
    if d == e { CountAtLeastTwo(s.barbers, i, j, BBrings(d)); }
    CountAtLeastTwo(s.cust, if d < e then d else e, if d < e then e else d, OnSofa);
    NotTwoInside(s, d, e);
  }

  lemma UshersAlone(s: State)
    requires Inv(s) && (|s.ushers| <= 1 || OneAtATime(|s.cust|, s.capacity))
    ensures Alone(UHeld(s))
  {
    hide Inv;
    forall i, j | 0 <= i < j < |s.ushers| ensures UHeld(s)[i].None? || UHeld(s)[j].None? {
      if UHeld(s)[i].Some? && UHeld(s)[j].Some? { UshersHoldTwo(s, i, j); }
    }
  }

  lemma BarbersAlone(s: State)
    requires Inv(s) && (|s.barbers| <= 1 || |s.ushers| <= 1 || OneAtATime(|s.cust|, s.capacity))
    ensures Alone(BHeld(s))
  {
    hide Count, Mutexes, Numbers, Announced, Tokens, Known;
    CountAll(s.ushers, Seats);
    forall i, j | 0 <= i < j < |s.barbers| ensures BHeld(s)[i].None? || BHeld(s)[j].None? {
      if BHeld(s)[i].Some? && BHeld(s)[j].Some? { BarbersHoldTwo(s, i, j); }
    }
  }

  /** With one usher, or one customer at a time, customers are called to the sofa in the order of service. */
  lemma {:induction false} SofaOrdered(customers: nat, chairs: nat, seats: nat, capacity: nat, sched: seq<Thread>)
    requires seats <= 1 || OneAtATime(customers, capacity)
    ensures var s := Run(customers, chairs, seats, capacity, sched); Ordered(s.sofaQ, UHeld(s))
  {
    hide Enabled, Step, Ordered, Inv, Alone;
    if sched == [] {
      StartOrdered(customers, chairs, seats, capacity);
    } else {
      var front, t := sched[..|sched| - 1], sched[|sched| - 1];
      SofaOrdered(customers, chairs, seats, capacity, front);
      RunInv(customers, chairs, seats, capacity, front);
      RunInv(customers, chairs, seats, capacity, sched);
      var s := Run(customers, chairs, seats, capacity, front);
      UshersAlone(s);
      UshersAlone(Run(customers, chairs, seats, capacity, sched));
      if Enabled(s, t) { SofaOrderStep(s, t); }
    }
  }

  lemma StartOrdered(customers: nat, chairs: nat, seats: nat, capacity: nat)
    ensures var s := Start(customers, chairs, seats, capacity);
            Ordered(s.sofaQ, UHeld(s)) && Ordered(s.chairQ, BHeld(s))
  {
  }

  /** With one barber, one seat on the sofa, or one customer at a time, customers are called to the chairs in order. */
  lemma {:induction false} ChairOrdered(customers: nat, chairs: nat, seats: nat, capacity: nat, sched: seq<Thread>)
    requires chairs <= 1 || seats <= 1 || OneAtATime(customers, capacity)
    ensures var s := Run(customers, chairs, seats, capacity, sched); Ordered(s.chairQ, BHeld(s))
  {
    hide Enabled, Step, Ordered, Inv, Alone;
    if sched == [] {
      StartOrdered(customers, chairs, seats, capacity);
    } else {
      var front, t := sched[..|sched| - 1], sched[|sched| - 1];
      ChairOrdered(customers, chairs, seats, capacity, front);
      RunInv(customers, chairs, seats, capacity, front);
      RunInv(customers, chairs, seats, capacity, sched);
      var s := Run(customers, chairs, seats, capacity, front);
      BarbersAlone(s);
      BarbersAlone(Run(customers, chairs, seats, capacity, sched));
      if Enabled(s, t) { ChairOrderStep(s, t); }
    }
  }

  // ---------------------------------------------------------------- calls out of order

  /** With two ushers the second customer in the queue can be called before the first. */
  lemma SofaOutOfOrder(customers: nat, chairs: nat, seats: nat, capacity: nat) returns (sched: seq<Thread>)
    requires customers >= 2 && seats >= 2 && capacity >= 2
    ensures !CallsInOrder(Run(customers, chairs, seats, capacity, sched).sofaQ)
  {
    hide Turns, After, Push, Pop;
    var s0 := Start(customers, chairs, seats, capacity);
    NoSchedule(s0);
    sched := Arrives(s0, [], 0);
    sched := Arrives(s0, sched, 1);
    TwoWaiting(After(s0, sched).sofaQ);
    Fetches(After(s0, sched), 0);
    sched := Extend(s0, sched, U(0), 4);
    Fetches(After(s0, sched), 1);
    sched := Extend(s0, sched, U(1), 4);
    One(After(s0, sched), U(1));
    sched := Extend(s0, sched, U(1), 1);
    var q := After(s0, sched).sofaQ;
    assert q.served == [0, 1] && q.called == [1];
    assert q.called[0] != q.served[0];
  }

  /** Two customers that joined an empty queue are taken in that order. */
  lemma TwoWaiting(q: Queue)
    requires q == Push(Push(EMPTY, 0), 1)
    ensures q.waiting != [] && q.waiting[0] == 0 && Pop(q).waiting != [] && Pop(q).waiting[0] == 1
    ensures Pop(Pop(q)).served == [0, 1] && Pop(Pop(q)).called == []
  {
  }

  /** Customers 0 and 1 sit on the sofa and wait for a chair, in this order; the barbers are idle. */
  ghost predicate TwoSeated(s: State) {
    && |s.cust| >= 2 && s.cust[0] == s.cust[1] == Customer(AwaitChair, 0, 0) && s.chairQ == Push(Push(EMPTY, 0), 1)
    && s.onSofa == 2 && s.chairMutex == s.cashier == 1 && s.payment == s.receipt == 0
    && forall b :: 0 <= b < |s.barbers| ==> s.barbers[b] == BIdle
  }

  lemma BothSit(customers: nat, chairs: nat, seats: nat, capacity: nat) returns (sched: seq<Thread>)
    requires customers >= 2 && seats >= 2 && capacity >= 2
    ensures var s := Run(customers, chairs, seats, capacity, sched);
            TwoSeated(s) && |s.barbers| == chairs && |s.cust| == customers
  {
    hide After, Turns;
    var s0 := Start(customers, chairs, seats, capacity);
    NoSchedule(s0);
    sched := Arrives(s0, [], 0);
    sched := TakesSeat(s0, sched, 0, 0);
    sched := Arrives(s0, sched, 1);
    sched := TakesSeat(s0, sched, 1, 1);
  }

  /** With two barbers and two seats the second customer in the chair queue can be called before the first. */
  lemma ChairOutOfOrder(customers: nat, chairs: nat, seats: nat, capacity: nat) returns (sched: seq<Thread>)
    requires customers >= 2 && chairs >= 2 && seats >= 2 && capacity >= 2
    ensures !CallsInOrder(Run(customers, chairs, seats, capacity, sched).chairQ)
  {
    hide Turns, After, Push, Pop;
    var s0 := Start(customers, chairs, seats, capacity);
    sched := BothSit(customers, chairs, seats, capacity);
    TwoWaiting(After(s0, sched).chairQ);
    Takes(After(s0, sched), 0);
    sched := Extend(s0, sched, B(0), 4);
    Takes(After(s0, sched), 1);
    sched := Extend(s0, sched, B(1), 4);
    One(After(s0, sched), B(1));
    sched := Extend(s0, sched, B(1), 1);
    var q := After(s0, sched).chairQ;
    assert q.served == [0, 1] && q.called == [1];
    assert q.called[0] != q.served[0];
  }

  /**
   Customers are called to the sofa in the order of service in every run exactly if there is at most one usher,
   or never more than one customer inside.
   */
  lemma SofaCallOrderIff(customers: nat, chairs: nat, seats: nat, capacity: nat)
    ensures (forall sched :: CallsInOrder(Run(customers, chairs, seats, capacity, sched).sofaQ)) <==>
            seats <= 1 || OneAtATime(customers, capacity)
  {
    hide Run, CallsInOrder, Ordered;
    if seats <= 1 || OneAtATime(customers, capacity) {
      forall sched ensures CallsInOrder(Run(customers, chairs, seats, capacity, sched).sofaQ) {
        SofaOrdered(customers, chairs, seats, capacity, sched);
        var s := Run(customers, chairs, seats, capacity, sched);
        OrderedCalls(s.sofaQ, UHeld(s));
      }
    } else {
      var sched := SofaOutOfOrder(customers, chairs, seats, capacity);
    }
  }

  /** And to the chairs exactly if there is at most one barber, or one sofa seat, or one customer at a time. */
  lemma ChairCallOrderIff(customers: nat, chairs: nat, seats: nat, capacity: nat)
    ensures (forall sched :: CallsInOrder(Run(customers, chairs, seats, capacity, sched).chairQ)) <==>
            chairs <= 1 || seats <= 1 || OneAtATime(customers, capacity)
  {
    hide Run, CallsInOrder, Ordered;
    if chairs <= 1 || seats <= 1 || OneAtATime(customers, capacity) {
      forall sched ensures CallsInOrder(Run(customers, chairs, seats, capacity, sched).chairQ) {
        ChairOrdered(customers, chairs, seats, capacity, sched);
        var s := Run(customers, chairs, seats, capacity, sched);
        OrderedCalls(s.chairQ, BHeld(s));
      }
    } else {
      var sched := ChairOutOfOrder(customers, chairs, seats, capacity);
    }
  }
}

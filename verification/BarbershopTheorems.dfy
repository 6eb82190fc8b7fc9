/** The invariant of the barbershop, and what holds in every run. */
module BarbershopTheorems {
  import opened Counting
  import opened Barbershop

  // ---------------------------------------------------------------- what every step keeps

  predicate HoldsNum(c: Customer) {
    c.pc.TestFull? || c.pc.Balk? || c.pc.Admit? || c.pc.Admitted? || c.pc.Uncount? || c.pc.UnlockCount?
  }
  predicate HoldsSofaQ(c: Customer) { c.pc.JoinSofaQ? || c.pc.UnlockSofaQ? }
  predicate HoldsChairQ(c: Customer) { c.pc.JoinChairQ? || c.pc.UnlockChairQ? }
  predicate BHolds(b: Barber) { b.BPop? || b.BUnlock? }
  predicate UHolds(u: Usher) { u.UPop? || u.UUnlock? }
  predicate AtTill(b: Barber) { b.BLeaveTill? }

  /** Each mutex is free or held by exactly one thread. */
  ghost predicate Mutexes(s: State) {
    && s.numMutex + Count(s.cust, HoldsNum) == 1
    && s.sofaMutex + Count(s.cust, HoldsSofaQ) + Count(s.ushers, UHolds) == 1
    && s.chairMutex + Count(s.cust, HoldsChairQ) + Count(s.barbers, BHolds) == 1
    && s.cashier + Count(s.barbers, AtTill) == 1
  }

  /** Admitted and not yet left. */
  predicate Inside(c: Customer) {
    c.pc.Admitted? || c.pc.WantSofaQ? || c.pc.JoinSofaQ? || c.pc.UnlockSofaQ? || c.pc.CallUsher? || c.pc.AwaitSofa?
    || c.pc.WantChairQ? || c.pc.JoinChairQ? || c.pc.UnlockChairQ? || c.pc.CallBarber? || c.pc.AwaitChair?
    || c.pc.LeaveSofa? || c.pc.Pay? || c.pc.AwaitReceipt? || c.pc.WantCount? || c.pc.Uncount?
  }

  /** customer_num counts the customers inside, and an admission has room. */
  ghost predicate Numbers(s: State) {
    && s.num == Count(s.cust, Inside) <= s.capacity
    && forall i :: 0 <= i < |s.cust| && s.cust[i].pc == Admit ==> s.num < s.capacity
  }

  predicate CallsUsher(c: Customer) { c.pc.UnlockSofaQ? || c.pc.CallUsher? }
  predicate CallsBarber(c: Customer) { c.pc.UnlockChairQ? || c.pc.CallBarber? }
  predicate UComing(u: Usher) { u.UWantQueue? || u.UPop? }
  predicate BComing(b: Barber) { b.BWantQueue? || b.BPop? }

  /** Every entry in a queue has been, or will be, announced to exactly one usher or barber. */
  ghost predicate Announced(s: State) {
    && |s.sofaQ.waiting| == s.arrive + Count(s.ushers, UComing) + Count(s.cust, CallsUsher)
    && |s.chairQ.waiting| == s.onSofa + Count(s.barbers, BComing) + Count(s.cust, CallsBarber)
  }

  /** Has been given a sofa seat and has not given it back. */
  predicate OnSofa(c: Customer) {
    c.sofaSem > 0 || c.pc.WantChairQ? || c.pc.JoinChairQ? || c.pc.UnlockChairQ? || c.pc.CallBarber?
    || c.pc.AwaitChair? || c.pc.LeaveSofa?
  }

  /** Has been given a chair and has not paid. */
  predicate InChair(c: Customer) { c.chairSem > 0 || c.pc.LeaveSofa? || c.pc.Pay? }

  predicate AwaitsReceipt(c: Customer) { c.pc.AwaitReceipt? }
  predicate Seats(u: Usher) { u.UAwaitSeat? }
  predicate Cuts(b: Barber) { b.BAwaitPayment? }
  predicate Cashes(b: Barber) { b.BWantTill? || b.BLeaveTill? || b.BGiveReceipt? }

  /** One usher stands behind every sofa seat taken, one barber behind every chair and every payment. */
  ghost predicate Places(s: State) {
    && Count(s.ushers, Seats) == s.leaveSofa + Count(s.cust, OnSofa)
    && Count(s.barbers, Cuts) == s.payment + Count(s.cust, InChair)
    && Count(s.cust, AwaitsReceipt) == s.payment + Count(s.barbers, Cashes) + s.receipt
  }

  ghost function UBrings(c: nat): Usher -> bool { (u: Usher) => u == UUnlock(c) || u == UCall(c) }
  ghost function BBrings(c: nat): Barber -> bool { (b: Barber) => b == BUnlock(c) || b == BCall(c) }

  predicate AwaitsSofa(pc: CustomerPC) { pc.UnlockSofaQ? || pc.CallUsher? || pc.AwaitSofa? }
  predicate AwaitsChair(pc: CustomerPC) { pc.UnlockChairQ? || pc.CallBarber? || pc.AwaitChair? }

  /** A customer waiting for the sofa is in the queue once, or taken out by one usher, or already called. */
  ghost predicate SofaToken(s: State, c: nat)
    requires c < |s.cust|
  {
    multiset(s.sofaQ.waiting)[c] + Count(s.ushers, UBrings(c)) + s.cust[c].sofaSem
    == if AwaitsSofa(s.cust[c].pc) then 1 else 0
  }

  ghost predicate ChairToken(s: State, c: nat)
    requires c < |s.cust|
  {
    multiset(s.chairQ.waiting)[c] + Count(s.barbers, BBrings(c)) + s.cust[c].chairSem
    == if AwaitsChair(s.cust[c].pc) then 1 else 0
  }

  ghost predicate Tokens(s: State) {
    forall c :: 0 <= c < |s.cust| ==> SofaToken(s, c) && ChairToken(s, c)
  }

  /** Queues, ushers and barbers name customers. */
  ghost predicate Known(s: State) {
    && (forall k :: 0 <= k < |s.sofaQ.waiting| ==> s.sofaQ.waiting[k] < |s.cust|)
    && (forall k :: 0 <= k < |s.chairQ.waiting| ==> s.chairQ.waiting[k] < |s.cust|)
    && (forall u :: 0 <= u < |s.ushers| ==> UKnown(s.ushers[u], |s.cust|))
    && (forall b :: 0 <= b < |s.barbers| ==> BKnown(s.barbers[b], |s.cust|))
  }

  predicate UKnown(u: Usher, n: nat) { u.UUnlock? || u.UCall? ==> u.e < n }
  predicate BKnown(b: Barber, n: nat) { b.BUnlock? || b.BCall? ==> b.e < n }

  /** Everybody who joined has been served, in that order, or is still waiting, in that order. */
  predicate Fifo(q: Queue) { q.joined == q.served + q.waiting }

  ghost predicate Inv(s: State) {
    Mutexes(s) && Numbers(s) && Announced(s) && Places(s) && Tokens(s) && Known(s) && Fifo(s.sofaQ) && Fifo(s.chairQ)
  }

  // ---------------------------------------------------------------- a customer's step

  lemma CustomerMutexes(s: State, i: nat)
    requires CustomerEnabled(s, i) && Mutexes(s)
    ensures Mutexes(Step(s, C(i)))
  {
    hide Count;
    var x := NextCustomer(s, i);
    CountUpdate(s.cust, i, x, HoldsNum);
    CountUpdate(s.cust, i, x, HoldsSofaQ);
    CountUpdate(s.cust, i, x, HoldsChairQ);
  }

  lemma CustomerNumbers(s: State, i: nat)
    requires CustomerEnabled(s, i) && Mutexes(s) && Numbers(s)
    ensures Numbers(Step(s, C(i)))
  {
    hide Count;
    var x := NextCustomer(s, i);
    CountUpdate(s.cust, i, x, Inside);
    var s' := Step(s, C(i));
    Unique(s.cust, HoldsNum);
    forall j | 0 <= j < |s'.cust| && s'.cust[j].pc == Admit ensures s'.num < s'.capacity {
      if j != i { assert s.cust[j].pc == Admit && HoldsNum(s.cust[j]); }
    }
  }

  lemma CustomerAnnounced(s: State, i: nat)
    requires CustomerEnabled(s, i) && Announced(s)
    ensures Announced(Step(s, C(i)))
  {
    hide Count;
    var x := NextCustomer(s, i);
    CountUpdate(s.cust, i, x, CallsUsher);
    CountUpdate(s.cust, i, x, CallsBarber);
  }

  /** A customer holds its seat from being called until it leaves the sofa, its chair until it pays. */
  lemma CustomerSits(s: State, i: nat)
    requires CustomerEnabled(s, i) && SofaToken(s, i) && ChairToken(s, i)
    ensures var c, x := s.cust[i], NextCustomer(s, i);
            && (OnSofa(x) <==> OnSofa(c) && !c.pc.LeaveSofa?) && (InChair(x) <==> InChair(c) && !c.pc.Pay?)
            && (c.pc.LeaveSofa? ==> OnSofa(c)) && (c.pc.Pay? ==> InChair(c))
  {
    hide Count;
  }

  lemma CustomerPlaces(s: State, i: nat)
    requires CustomerEnabled(s, i) && Places(s) && SofaToken(s, i) && ChairToken(s, i)
    ensures Places(Step(s, C(i)))
  {
    hide Count, OnSofa, InChair, SofaToken, ChairToken;
    var x := NextCustomer(s, i);
    CustomerSits(s, i);
    CountUpdate(s.cust, i, x, OnSofa);
    CountUpdate(s.cust, i, x, InChair);
    CountUpdate(s.cust, i, x, AwaitsReceipt);
  }

  lemma CustomerSofaToken(s: State, i: nat, c: nat)
    requires CustomerEnabled(s, i) && c < |s.cust| && SofaToken(s, c)
    ensures SofaToken(Step(s, C(i)), c)
  {
    hide Count, UBrings;
    var s' := Step(s, C(i));
    assert s'.ushers == s.ushers;
    assert s'.sofaQ.waiting == if s.cust[i].pc.JoinSofaQ? then s.sofaQ.waiting + [i] else s.sofaQ.waiting;
  }

  lemma CustomerChairToken(s: State, i: nat, c: nat)
    requires CustomerEnabled(s, i) && c < |s.cust| && ChairToken(s, c)
    ensures ChairToken(Step(s, C(i)), c)
  {
    hide Count, BBrings;
    var s' := Step(s, C(i));
    assert s'.barbers == s.barbers;
    assert s'.chairQ.waiting == if s.cust[i].pc.JoinChairQ? then s.chairQ.waiting + [i] else s.chairQ.waiting;
  }

  lemma CustomerTokens(s: State, i: nat)
    requires CustomerEnabled(s, i) && Tokens(s)
    ensures Tokens(Step(s, C(i)))
  {
    hide SofaToken, ChairToken, CustomerShared, NextCustomer;
    var s' := Step(s, C(i));
    forall c | 0 <= c < |s'.cust| ensures SofaToken(s', c) && ChairToken(s', c) {
      CustomerSofaToken(s, i, c);
      CustomerChairToken(s, i, c);
    }
  }

  lemma CustomerKnown(s: State, i: nat)
    requires CustomerEnabled(s, i) && Known(s)
    ensures Known(Step(s, C(i)))
  {
  }

  lemma CustomerFifo(s: State, i: nat)
    requires CustomerEnabled(s, i) && Fifo(s.sofaQ) && Fifo(s.chairQ)
    ensures var s' := Step(s, C(i)); Fifo(s'.sofaQ) && Fifo(s'.chairQ)
  {
  }

  // ---------------------------------------------------------------- an usher's step

  lemma UsherShared(s: State, i: nat)
    requires UsherEnabled(s, i) && Mutexes(s) && Announced(s)
    ensures Mutexes(Step(s, U(i))) && Announced(Step(s, U(i)))
  {
    hide Count;
    var s' := Step(s, U(i));
    var x := s'.ushers[i];
    assert s'.ushers == s.ushers[i := x];
    CountUpdate(s.ushers, i, x, UHolds);
    CountUpdate(s.ushers, i, x, UComing);
    if s.ushers[i].UCall? {
      var e := s.ushers[i].e;
      var y := s'.cust[e];
      CountUpdate(s.cust, e, y, HoldsNum);
      CountUpdate(s.cust, e, y, HoldsSofaQ);
      CountUpdate(s.cust, e, y, HoldsChairQ);
      CountUpdate(s.cust, e, y, CallsUsher);
      CountUpdate(s.cust, e, y, CallsBarber);
    }
  }

  lemma UsherNumbers(s: State, i: nat)
    requires UsherEnabled(s, i) && Numbers(s)
    ensures Numbers(Step(s, U(i)))
  {
    hide Count;
    var s' := Step(s, U(i));
    if s.ushers[i].UCall? {
      var e := s.ushers[i].e;
      CountUpdate(s.cust, e, s'.cust[e], Inside);
    }
    assert forall j :: 0 <= j < |s.cust| ==> s'.cust[j].pc == s.cust[j].pc;
  }

  /** Whom an usher calls is waiting for the sofa and was not called yet. */
  lemma CalledToSofa(s: State, i: nat)
    requires UsherEnabled(s, i) && Tokens(s) && s.ushers[i].UCall?
    ensures var c := s.cust[s.ushers[i].e]; c.sofaSem == 0 && AwaitsSofa(c.pc)
  {
    hide Count;
    var e := s.ushers[i].e;
    assert SofaToken(s, e);
    CountAtLeastOne(s.ushers, i, UBrings(e));
  }

  lemma UsherPlaces(s: State, i: nat)
    requires UsherEnabled(s, i) && Places(s) && Tokens(s)
    ensures Places(Step(s, U(i)))
  {
    hide Count, Tokens;
    var s' := Step(s, U(i));
    var x := s'.ushers[i];
    assert s'.ushers == s.ushers[i := x];
    CountUpdate(s.ushers, i, x, Seats);
    if s.ushers[i].UCall? {
      var e := s.ushers[i].e;
      var y := s'.cust[e];
      CalledToSofa(s, i);
      CountUpdate(s.cust, e, y, OnSofa);
      CountUpdate(s.cust, e, y, InChair);
      CountUpdate(s.cust, e, y, AwaitsReceipt);
    }
  }

  lemma UsherSofaToken(s: State, i: nat, c: nat)
    requires UsherEnabled(s, i) && c < |s.cust| && SofaToken(s, c)
    ensures SofaToken(Step(s, U(i)), c)
  {
    hide Count;
    var s' := Step(s, U(i));
    var x := s'.ushers[i];
    assert s'.ushers == s.ushers[i := x];
    CountUpdate(s.ushers, i, x, UBrings(c));
    if s.ushers[i].UPop? {
      assert s.sofaQ.waiting == [s.sofaQ.waiting[0]] + s'.sofaQ.waiting;
    }
  }

  lemma UsherTokens(s: State, i: nat)
    requires UsherEnabled(s, i) && Tokens(s)
    ensures Tokens(Step(s, U(i)))
  {
    hide Count, BBrings, SofaToken;
    var s' := Step(s, U(i));
    forall c | 0 <= c < |s'.cust| ensures SofaToken(s', c) && ChairToken(s', c) {
      assert SofaToken(s, c) && ChairToken(s, c);
      UsherSofaToken(s, i, c);
      assert s'.cust[c].pc == s.cust[c].pc && s'.cust[c].chairSem == s.cust[c].chairSem;
    }
  }

  lemma UsherKnown(s: State, i: nat)
    requires UsherEnabled(s, i) && Known(s)
    ensures Known(Step(s, U(i)))
  {
  }

  // ---------------------------------------------------------------- a barber's step

  lemma BarberShared(s: State, i: nat)
    requires BarberEnabled(s, i) && Mutexes(s) && Announced(s)
    ensures Mutexes(Step(s, B(i))) && Announced(Step(s, B(i)))
  {
    hide Count;
    var s' := Step(s, B(i));
    var x := s'.barbers[i];
    assert s'.barbers == s.barbers[i := x];
    CountUpdate(s.barbers, i, x, BHolds);
    CountUpdate(s.barbers, i, x, BComing);
    CountUpdate(s.barbers, i, x, AtTill);
    if s.barbers[i].BCall? {
      var e := s.barbers[i].e;
      var y := s'.cust[e];
      CountUpdate(s.cust, e, y, HoldsNum);
      CountUpdate(s.cust, e, y, HoldsSofaQ);
      CountUpdate(s.cust, e, y, HoldsChairQ);
      CountUpdate(s.cust, e, y, CallsUsher);
      CountUpdate(s.cust, e, y, CallsBarber);
    }
  }

  lemma BarberNumbers(s: State, i: nat)
    requires BarberEnabled(s, i) && Numbers(s)
    ensures Numbers(Step(s, B(i)))
  {
    hide Count;
    var s' := Step(s, B(i));
    if s.barbers[i].BCall? {
      var e := s.barbers[i].e;
      CountUpdate(s.cust, e, s'.cust[e], Inside);
    }
    assert forall j :: 0 <= j < |s.cust| ==> s'.cust[j].pc == s.cust[j].pc;
  }

  lemma CalledToChair(s: State, i: nat)
    requires BarberEnabled(s, i) && Tokens(s) && s.barbers[i].BCall?
    ensures var c := s.cust[s.barbers[i].e]; c.chairSem == 0 && AwaitsChair(c.pc)
  {
    hide Count;
    var e := s.barbers[i].e;
    assert ChairToken(s, e);
    CountAtLeastOne(s.barbers, i, BBrings(e));
  }

  lemma BarberPlaces(s: State, i: nat)
    requires BarberEnabled(s, i) && Places(s) && Tokens(s)
    ensures Places(Step(s, B(i)))
  {
    hide Count, Tokens;
    var s' := Step(s, B(i));
    var x := s'.barbers[i];
    assert s'.barbers == s.barbers[i := x];
    CountUpdate(s.barbers, i, x, Cuts);
    CountUpdate(s.barbers, i, x, Cashes);
    if s.barbers[i].BCall? {
      var e := s.barbers[i].e;
      var y := s'.cust[e];
      CalledToChair(s, i);
      CountUpdate(s.cust, e, y, OnSofa);
      CountUpdate(s.cust, e, y, InChair);
      CountUpdate(s.cust, e, y, AwaitsReceipt);
    }
  }

  lemma BarberChairToken(s: State, i: nat, c: nat)
    requires BarberEnabled(s, i) && c < |s.cust| && ChairToken(s, c)
    ensures ChairToken(Step(s, B(i)), c)
  {
    hide Count;
    var s' := Step(s, B(i));
    var x := s'.barbers[i];
    assert s'.barbers == s.barbers[i := x];
    CountUpdate(s.barbers, i, x, BBrings(c));
    if s.barbers[i].BPop? {
      assert s.chairQ.waiting == [s.chairQ.waiting[0]] + s'.chairQ.waiting;
    }
  }

  lemma BarberTokens(s: State, i: nat)
    requires BarberEnabled(s, i) && Tokens(s)
    ensures Tokens(Step(s, B(i)))
  {
    hide Count, UBrings, ChairToken;
    var s' := Step(s, B(i));
    forall c | 0 <= c < |s'.cust| ensures SofaToken(s', c) && ChairToken(s', c) {
      assert SofaToken(s, c) && ChairToken(s, c);
      BarberChairToken(s, i, c);
      assert s'.cust[c].pc == s.cust[c].pc && s'.cust[c].sofaSem == s.cust[c].sofaSem;
    }
  }

  lemma BarberKnown(s: State, i: nat)
    requires BarberEnabled(s, i) && Known(s)
    ensures Known(Step(s, B(i)))
  {
  }

  // ---------------------------------------------------------------- every run

  lemma StepKept(s: State, t: Thread)
    requires Inv(s) && Enabled(s, t)
    ensures Inv(Step(s, t))
  {
    hide Mutexes, Numbers, Announced, Places, Tokens, Known, Fifo, Step;
    match t {
      case C(i) =>
        CustomerMutexes(s, i);
        CustomerNumbers(s, i);
        CustomerAnnounced(s, i);
        TokensAt(s, i);
        CustomerPlaces(s, i);
        CustomerTokens(s, i);
        CustomerKnown(s, i);
        CustomerFifo(s, i);
      case B(i) =>
        BarberShared(s, i);
        BarberNumbers(s, i);
        BarberPlaces(s, i);
        BarberTokens(s, i);
        BarberKnown(s, i);
        ServerFifo(s, t);
      case U(i) =>
        UsherShared(s, i);
        UsherNumbers(s, i);
        UsherPlaces(s, i);
        UsherTokens(s, i);
        UsherKnown(s, i);
        ServerFifo(s, t);
    }
  }

  lemma TokensAt(s: State, c: nat)
    requires Tokens(s) && c < |s.cust|
    ensures SofaToken(s, c) && ChairToken(s, c)
  {
  }

  lemma ServerFifo(s: State, t: Thread)
    requires Enabled(s, t) && !t.C? && Fifo(s.sofaQ) && Fifo(s.chairQ)
    ensures Fifo(Step(s, t).sofaQ) && Fifo(Step(s, t).chairQ)
  {
  }

  /** Nobody has done anything yet. */
  ghost predicate Fresh(s: State) {
    && (forall i :: 0 <= i < |s.cust| ==> s.cust[i] == Customer(Arrive, 0, 0))
    && (forall i :: 0 <= i < |s.barbers| ==> s.barbers[i] == BIdle)
    && (forall i :: 0 <= i < |s.ushers| ==> s.ushers[i] == UIdle)
  }

  lemma FreshCounts(s: State, f: Customer -> bool, g: Barber -> bool, h: Usher -> bool)
    requires Fresh(s) && !f(Customer(Arrive, 0, 0)) && !g(BIdle) && !h(UIdle)
    ensures Count(s.cust, f) == 0 && Count(s.barbers, g) == 0 && Count(s.ushers, h) == 0
  {
    CountNone(s.cust, f);
    CountNone(s.barbers, g);
    CountNone(s.ushers, h);
  }

  lemma StartInv(customers: nat, chairs: nat, seats: nat, capacity: int)
    requires capacity >= 0
    ensures Inv(Start(customers, chairs, seats, capacity))
  {
    hide Count, UBrings, BBrings;
    var s := Start(customers, chairs, seats, capacity);
    FreshCounts(s, HoldsNum, BHolds, UHolds);
    FreshCounts(s, HoldsSofaQ, AtTill, UComing);
    FreshCounts(s, HoldsChairQ, BComing, Seats);
    FreshCounts(s, Inside, Cuts, Seats);
    FreshCounts(s, CallsUsher, Cashes, Seats);
    FreshCounts(s, CallsBarber, Cashes, Seats);
    FreshCounts(s, OnSofa, Cashes, Seats);
    FreshCounts(s, InChair, Cashes, Seats);
    FreshCounts(s, AwaitsReceipt, Cashes, Seats);
    forall c | 0 <= c < |s.cust| ensures SofaToken(s, c) && ChairToken(s, c) { FreshTokens(s, c); }
  }

  lemma FreshTokens(s: State, c: nat)
    requires Fresh(s) && c < |s.cust| && s.sofaQ == s.chairQ == EMPTY
    ensures SofaToken(s, c) && ChairToken(s, c)
  {
    hide Count;
    FreshCounts(s, HoldsNum, BBrings(c), UBrings(c));
  }

  /** The thread counts and the capacity do not change. */
  ghost predicate SameShop(s: State, s': State) {
    |s'.cust| == |s.cust| && |s'.barbers| == |s.barbers| && |s'.ushers| == |s.ushers| && s'.capacity == s.capacity
  }

  lemma StepSameShop(s: State, t: Thread)
    requires Enabled(s, t)
    ensures SameShop(s, Step(s, t))
  {
  }

  lemma {:induction false} Reachable(s: State, sched: seq<Thread>)
    requires Inv(s)
    ensures Inv(After(s, sched)) && SameShop(s, After(s, sched))
  {
    hide Inv, Step, Enabled;
    if sched != [] {
      var front, t := sched[..|sched| - 1], sched[|sched| - 1];
      Reachable(s, front);
      if Enabled(After(s, front), t) {
        StepKept(After(s, front), t);
        StepSameShop(After(s, front), t);
      }
    }
  }

  /** A run of a shop that opens empty. */
  ghost function Run(customers: nat, chairs: nat, seats: nat, capacity: nat, sched: seq<Thread>): State {
    After(Start(customers, chairs, seats, capacity), sched)
  }

  lemma RunInv(customers: nat, chairs: nat, seats: nat, capacity: nat, sched: seq<Thread>)
    ensures var s := Run(customers, chairs, seats, capacity, sched);
            Inv(s) && |s.cust| == customers && |s.barbers| == chairs && |s.ushers| == seats && s.capacity == capacity
  {
    hide Inv, After;
    StartInv(customers, chairs, seats, capacity);
    Reachable(Start(customers, chairs, seats, capacity), sched);
  }

  /** In every run customer_num is the number of customers inside, at most max_capacity. */
  lemma Capacity(customers: nat, chairs: nat, seats: nat, capacity: nat, sched: seq<Thread>)
    ensures var s := Run(customers, chairs, seats, capacity, sched);
            s.num == Count(s.cust, Inside) <= capacity
  {
    hide Run, Count;
    RunInv(customers, chairs, seats, capacity, sched);
  }

  /**
   In every run the sofa holds at most one customer per usher and the chairs one per barber. The customers that
   have a chair or wait for a receipt are exactly the barbers at work plus the receipts already written.
   */
  lemma SeatsSuffice(customers: nat, chairs: nat, seats: nat, capacity: nat, sched: seq<Thread>)
    ensures var s := Run(customers, chairs, seats, capacity, sched);
            && Count(s.cust, OnSofa) <= seats
            && Count(s.cust, InChair) <= chairs
            && Count(s.cust, InChair) + Count(s.cust, AwaitsReceipt)
               == Count(s.barbers, Cuts) + Count(s.barbers, Cashes) + s.receipt
            && Count(s.barbers, Cuts) + Count(s.barbers, Cashes) <= chairs
  {
    hide Run, Count;
    RunInv(customers, chairs, seats, capacity, sched);
    var s := Run(customers, chairs, seats, capacity, sched);
    CountAll(s.ushers, Seats);
    CountApart(s.barbers, Cuts, Cashes);
  }

  /** In every run neither queue is empty when an usher or a barber takes from it. */
  lemma NeverPoppedEmpty(customers: nat, chairs: nat, seats: nat, capacity: nat, sched: seq<Thread>)
    ensures var s := Run(customers, chairs, seats, capacity, sched);
            && (UPop in s.ushers ==> s.sofaQ.waiting != [])
            && (BPop in s.barbers ==> s.chairQ.waiting != [])
  {
    hide Run, Count;
    RunInv(customers, chairs, seats, capacity, sched);
    var s := Run(customers, chairs, seats, capacity, sched);
    if UPop in s.ushers {
      var i :| 0 <= i < |s.ushers| && s.ushers[i] == UPop;
      CountAtLeastOne(s.ushers, i, UComing);
    }
    if BPop in s.barbers {
      var i :| 0 <= i < |s.barbers| && s.barbers[i] == BPop;
      CountAtLeastOne(s.barbers, i, BComing);
    }
  }

  /** In every run both queues serve in the order of arrival. */
  lemma ServedInOrder(customers: nat, chairs: nat, seats: nat, capacity: nat, sched: seq<Thread>)
    ensures var s := Run(customers, chairs, seats, capacity, sched);
            && s.sofaQ.served <= s.sofaQ.joined && s.chairQ.served <= s.chairQ.joined
            && s.sofaQ.joined[|s.sofaQ.served|..] == s.sofaQ.waiting
            && s.chairQ.joined[|s.chairQ.served|..] == s.chairQ.waiting
  {
    hide Run, Count;
    RunInv(customers, chairs, seats, capacity, sched);
  }

  // ---------------------------------------------------------------- progress

  predicate Finished(c: Customer) { c.pc.Balked? || c.pc.Gone? }

  /** Some thread can step. */
  ghost predicate Live(s: State) { exists t :: Enabled(s, t) }

  /** In every run of a shop with a barber and an usher, some thread can step while a customer is unfinished. */
  lemma Progress(customers: nat, chairs: nat, seats: nat, capacity: nat, sched: seq<Thread>, i: nat)
    requires chairs > 0 && seats > 0 && i < customers
    ensures var s := Run(customers, chairs, seats, capacity, sched);
            |s.cust| == customers && (!Finished(s.cust[i]) ==> Live(s))
  {
    hide Run, Inv;
    RunInv(customers, chairs, seats, capacity, sched);
    var s := Run(customers, chairs, seats, capacity, sched);
    if !Finished(s.cust[i]) { NotStuck(s, i); }
  }

  /** With nobody able to step, every mutex is free and everybody waits for somebody else. */
  lemma OnlyWaiting(s: State)
    requires Inv(s) && !Live(s)
    ensures s.numMutex == s.sofaMutex == s.chairMutex == s.cashier == 1
    ensures forall i :: 0 <= i < |s.cust| ==> CustomerWaits(s.cust[i], s.receipt)
    ensures forall i :: 0 <= i < |s.ushers| ==> UsherWaits(s.ushers[i], s)
    ensures forall i :: 0 <= i < |s.barbers| ==> BarberWaits(s.barbers[i], s)
  {
    hide Count, Tokens, Places;
    forall i | 0 <= i < |s.cust| ensures !CustomerEnabled(s, i) { assert !Enabled(s, C(i)); }
    forall i | 0 <= i < |s.ushers| ensures !UsherEnabled(s, i) { assert !Enabled(s, U(i)); }
    forall i | 0 <= i < |s.barbers| ensures !BarberEnabled(s, i) { assert !Enabled(s, B(i)); }
    MutexesFree(s);
    forall i | 0 <= i < |s.cust| ensures CustomerWaits(s.cust[i], s.receipt) { assert !CustomerEnabled(s, i); }
    forall i | 0 <= i < |s.ushers| ensures UsherWaits(s.ushers[i], s) { assert !UsherEnabled(s, i); }
    forall i | 0 <= i < |s.barbers| ensures BarberWaits(s.barbers[i], s) { assert !BarberEnabled(s, i); }
  }

  predicate CustomerWaits(c: Customer, receipt: nat) {
    || Finished(c)
    || (c.pc.AwaitSofa? && c.sofaSem == 0)
    || (c.pc.AwaitChair? && c.chairSem == 0)
    || (c.pc.AwaitReceipt? && receipt == 0)
  }

  predicate UsherWaits(u: Usher, s: State) { (u.UIdle? && s.arrive == 0) || (u.UAwaitSeat? && s.leaveSofa == 0) }

  predicate BarberWaits(b: Barber, s: State) { (b.BIdle? && s.onSofa == 0) || (b.BAwaitPayment? && s.payment == 0) }

  lemma PopsSucceed(s: State)
    requires Announced(s)
    ensures forall i :: 0 <= i < |s.ushers| && s.ushers[i].UPop? ==> s.sofaQ.waiting != []
    ensures forall i :: 0 <= i < |s.barbers| && s.barbers[i].BPop? ==> s.chairQ.waiting != []
  {
    hide Count;
    forall i | 0 <= i < |s.ushers| && s.ushers[i].UPop?
      ensures s.sofaQ.waiting != []
    {
      CountAtLeastOne(s.ushers, i, UComing);
    }
    forall i | 0 <= i < |s.barbers| && s.barbers[i].BPop?
      ensures s.chairQ.waiting != []
    {
      CountAtLeastOne(s.barbers, i, BComing);
    }
  }

  lemma MutexesFree(s: State)
    requires Mutexes(s) && Announced(s) && Known(s)
    requires forall i :: 0 <= i < |s.cust| ==> !CustomerEnabled(s, i)
    requires forall i :: 0 <= i < |s.ushers| ==> !UsherEnabled(s, i)
    requires forall i :: 0 <= i < |s.barbers| ==> !BarberEnabled(s, i)
    ensures s.numMutex == s.sofaMutex == s.chairMutex == s.cashier == 1
    ensures forall i :: 0 <= i < |s.ushers| ==> !s.ushers[i].UPop? && !s.ushers[i].UUnlock? && !s.ushers[i].UCall?
    ensures forall i :: 0 <= i < |s.barbers| ==> !s.barbers[i].BPop? && !s.barbers[i].BUnlock? && !s.barbers[i].BCall?
  {
    hide Count;
    PopsSucceed(s);
    forall i | 0 <= i < |s.cust| ensures !HoldsNum(s.cust[i]) && !HoldsSofaQ(s.cust[i]) && !HoldsChairQ(s.cust[i]) {
      assert !CustomerEnabled(s, i);
    }
    forall i | 0 <= i < |s.ushers| ensures !UHolds(s.ushers[i]) && !s.ushers[i].UCall? {
      assert !UsherEnabled(s, i) && UKnown(s.ushers[i], |s.cust|);
    }
    forall i | 0 <= i < |s.barbers| ensures !BHolds(s.barbers[i]) && !AtTill(s.barbers[i]) && !s.barbers[i].BCall? {
      assert !BarberEnabled(s, i) && BKnown(s.barbers[i], |s.cust|);
    }
    CountNone(s.cust, HoldsNum);
    CountNone(s.cust, HoldsSofaQ);
    CountNone(s.cust, HoldsChairQ);
    CountNone(s.ushers, UHolds);
    CountNone(s.barbers, BHolds);
    CountNone(s.barbers, AtTill);
  }

  lemma NotStuck(s: State, i: nat)
    requires Inv(s) && |s.barbers| > 0 && |s.ushers| > 0 && i < |s.cust| && !Finished(s.cust[i])
    ensures Live(s)
  {
    hide Inv, Finished, Live;
    if !Live(s) {
      NobodyAtTill(s);
      NobodyForChair(s);
      NobodyForSofa(s);
      AllWait(s, i);
    }
  }

  lemma AllWait(s: State, i: nat)
    requires Inv(s) && !Live(s) && i < |s.cust|
    ensures Finished(s.cust[i]) || s.cust[i].pc.AwaitSofa? || s.cust[i].pc.AwaitChair? || s.cust[i].pc.AwaitReceipt?
  {
    hide Inv, Live;
    OnlyWaiting(s);
  }

  /** A customer waiting for a receipt has paid, so a barber could take the payment. */
  lemma NobodyAtTill(s: State)
    requires Inv(s) && !Live(s)
    ensures forall i :: 0 <= i < |s.cust| ==> !s.cust[i].pc.AwaitReceipt?
    ensures s.payment == 0
  {
    hide Count, Live, Tokens, Known, Mutexes, Announced, Numbers;
    OnlyWaiting(s);
    CountNone(s.barbers, Cashes);
    if s.payment > 0 { CountNone(s.barbers, Cuts); }
    forall i | 0 <= i < |s.cust| ensures !s.cust[i].pc.AwaitReceipt? {
      if s.cust[i].pc.AwaitReceipt? { CountAtLeastOne(s.cust, i, AwaitsReceipt); }
    }
  }

  /**
   A customer waiting for a chair is in the queue, so a barber could come; and a barber who cannot come has a
   customer.
   */
  lemma NobodyForChair(s: State)
    requires Inv(s) && !Live(s) && |s.barbers| > 0
    ensures forall i :: 0 <= i < |s.cust| ==> !s.cust[i].pc.AwaitChair?
  {
    hide Count, Live, Known, Mutexes, Numbers, Tokens;
    OnlyWaiting(s);
    NobodyAtTill(s);
    CountNone(s.barbers, BComing);
    CountNone(s.cust, CallsBarber);
    ChairsEmpty(s);
    if s.onSofa > 0 { BarbersBusy(s); }
    forall i | 0 <= i < |s.cust| ensures !s.cust[i].pc.AwaitChair? {
      if s.cust[i].pc.AwaitChair? { InChairQueue(s, i); }
    }
  }

  lemma BarbersBusy(s: State)
    requires s.onSofa > 0 && forall i :: 0 <= i < |s.barbers| ==> BarberWaits(s.barbers[i], s)
    ensures Count(s.barbers, Cuts) == |s.barbers|
  {
    hide Count;
    forall i | 0 <= i < |s.barbers| ensures Cuts(s.barbers[i]) { assert BarberWaits(s.barbers[i], s); }
    CountAll(s.barbers, Cuts);
  }

  lemma ChairsEmpty(s: State)
    requires Inv(s) && !Live(s)
    ensures Count(s.cust, InChair) == 0
  {
    hide Count, Live, Known, Mutexes, Numbers, Announced, Places;
    OnlyWaiting(s);
    forall i | 0 <= i < |s.cust| ensures !InChair(s.cust[i]) { assert ChairToken(s, i); }
    CountNone(s.cust, InChair);
  }

  lemma InChairQueue(s: State, i: nat)
    requires Inv(s) && !Live(s) && i < |s.cust| && s.cust[i].pc.AwaitChair?
    ensures s.chairQ.waiting != []
  {
    hide Count, Live, Known, Mutexes, Numbers, Announced, Places;
    OnlyWaiting(s);
    assert ChairToken(s, i);
    CountNone(s.barbers, BBrings(i));
  }

  lemma NobodyForSofa(s: State)
    requires Inv(s) && !Live(s) && |s.barbers| > 0 && |s.ushers| > 0
    ensures forall i :: 0 <= i < |s.cust| ==> !s.cust[i].pc.AwaitSofa?
  {
    hide Count, Live, Known, Mutexes, Numbers, Tokens;
    OnlyWaiting(s);
    CountNone(s.ushers, UComing);
    CountNone(s.cust, CallsUsher);
    SofaEmpty(s);
    if s.arrive > 0 { UshersBusy(s); }
    forall i | 0 <= i < |s.cust| ensures !s.cust[i].pc.AwaitSofa? {
      if s.cust[i].pc.AwaitSofa? { InSofaQueue(s, i); }
    }
  }

  lemma UshersBusy(s: State)
    requires s.arrive > 0 && |s.ushers| > 0 && forall i :: 0 <= i < |s.ushers| ==> UsherWaits(s.ushers[i], s)
    ensures Count(s.ushers, Seats) == |s.ushers| && s.leaveSofa == 0
  {
    hide Count;
    forall i | 0 <= i < |s.ushers| ensures Seats(s.ushers[i]) && s.leaveSofa == 0 { assert UsherWaits(s.ushers[i], s); }
    assert UsherWaits(s.ushers[0], s);
    CountAll(s.ushers, Seats);
  }

  lemma SofaEmpty(s: State)
    requires Inv(s) && !Live(s) && |s.barbers| > 0
    ensures Count(s.cust, OnSofa) == 0
  {
    hide Count, Live, Known, Mutexes, Numbers, Announced, Places;
    OnlyWaiting(s);
    NobodyForChair(s);
    forall i | 0 <= i < |s.cust| ensures !OnSofa(s.cust[i]) { assert SofaToken(s, i); }
    CountNone(s.cust, OnSofa);
  }

  lemma InSofaQueue(s: State, i: nat)
    requires Inv(s) && !Live(s) && i < |s.cust| && s.cust[i].pc.AwaitSofa?
    ensures s.sofaQ.waiting != []
  {
    hide Count, Live, Known, Mutexes, Numbers, Announced, Places;
    OnlyWaiting(s);
    assert SofaToken(s, i);
    CountNone(s.ushers, UBrings(i));
  }
}

/**
 Hilzer's barbershop, 31/Hilzers_barbershop.c, as a transition system over any number of customers,
 barbers (one per chair) and ushers (one per sofa seat). A step is one statement of `customer`,
 `barber` or `usher`; Sem_wait and Sem_post are atomic. The entry a customer puts into a queue
 is its own number, and the semaphore in the entry belongs to the customer.
 */
module Barbershop {
  /** What a customer does next. */
  datatype CustomerPC =
    | Arrive        // Sem_wait(cust_num_mutex), line 149
    | TestFull      // if customer_num == max_capacity
    | Balk          // Sem_post(cust_num_mutex), line 151
    | Balked
    | Admit         // customer_num++
    | Admitted      // Sem_post(cust_num_mutex), line 157
    | WantSofaQ     // Sem_wait(sofaq_mutex)
    | JoinSofaQ     // STAILQ_INSERT_TAIL, line 163
    | UnlockSofaQ   // Sem_post(sofaq_mutex)
    | CallUsher     // Sem_post(cust_arrive)
    | AwaitSofa     // Sem_wait(e->cust_sem), line 167
    | WantChairQ    // Sem_wait(chairq_mutex)
    | JoinChairQ    // STAILQ_INSERT_TAIL, line 173
    | UnlockChairQ  // Sem_post(chairq_mutex)
    | CallBarber    // Sem_post(cust_on_sofa)
    | AwaitChair    // Sem_wait(e->cust_sem), line 176
    | LeaveSofa     // Sem_post(cust_leave_sofa)
    | Pay           // Sem_post(payment)
    | AwaitReceipt  // Sem_wait(receipt)
    | WantCount     // Sem_wait(cust_num_mutex), line 184
    | Uncount       // customer_num--
    | UnlockCount   // Sem_post(cust_num_mutex), line 187
    | Gone

  /** A customer with the semaphores of its two queue entries. */
  datatype Customer = Customer(pc: CustomerPC, sofaSem: nat, chairSem: nat)

  datatype Barber =
    | BIdle          // Sem_wait(cust_on_sofa)
    | BWantQueue     // Sem_wait(chairq_mutex)
    | BPop           // STAILQ_FIRST, STAILQ_REMOVE_HEAD
    | BUnlock(e: nat)  // Sem_post(chairq_mutex)
    | BCall(e: nat)    // Sem_post(e->cust_sem)
    | BAwaitPayment  // Sem_wait(payment)
    | BWantTill      // Sem_wait(cashier_mutex)
    | BLeaveTill     // Sem_post(cashier_mutex)
    | BGiveReceipt   // Sem_post(receipt)

  datatype Usher =
    | UIdle          // Sem_wait(cust_arrive)
    | UWantQueue     // Sem_wait(sofaq_mutex)
    | UPop           // STAILQ_FIRST, STAILQ_REMOVE_HEAD
    | UUnlock(e: nat)  // Sem_post(sofaq_mutex)
    | UCall(e: nat)    // Sem_post(e->cust_sem)
    | UAwaitSeat     // Sem_wait(cust_leave_sofa)

  /** A queue with its history: everybody who joined, was taken out, and was called by a post. */
  datatype Queue = Queue(waiting: seq<nat>, joined: seq<nat>, served: seq<nat>, called: seq<nat>)

  datatype State = State(
    cust: seq<Customer>, barbers: seq<Barber>, ushers: seq<Usher>,
    capacity: int, num: int, sofaQ: Queue, chairQ: Queue,
    numMutex: nat, sofaMutex: nat, chairMutex: nat, cashier: nat,
    arrive: nat, onSofa: nat, leaveSofa: nat, payment: nat, receipt: nat)

  datatype Thread = C(i: nat) | B(i: nat) | U(i: nat)

  const EMPTY := Queue([], [], [], [])

  function Start(customers: nat, chairs: nat, seats: nat, capacity: int): State {
    State(seq(customers, _ => Customer(Arrive, 0, 0)), seq(chairs, _ => BIdle), seq(seats, _ => UIdle),
          capacity, 0, EMPTY, EMPTY, 1, 1, 1, 1, 0, 0, 0, 0, 0)
  }

  function Push(q: Queue, c: nat): Queue { q.(waiting := q.waiting + [c], joined := q.joined + [c]) }

  function Pop(q: Queue): Queue
    requires q.waiting != []
  {
    q.(waiting := q.waiting[1..], served := q.served + [q.waiting[0]])
  }

  function Called(q: Queue, c: nat): Queue { q.(called := q.called + [c]) }

  // A thread can step unless it waits on a semaphore that is zero. Taking from an empty queue is not
  // a step either; BarbershopTheorems.NeverPoppedEmpty shows that it never comes to that.

  predicate CustomerEnabled(s: State, i: nat) {
    && i < |s.cust|
    && match s.cust[i].pc
       case Arrive => s.numMutex > 0
       case WantSofaQ => s.sofaMutex > 0
       case AwaitSofa => s.cust[i].sofaSem > 0
       case WantChairQ => s.chairMutex > 0
       case AwaitChair => s.cust[i].chairSem > 0
       case AwaitReceipt => s.receipt > 0
       case WantCount => s.numMutex > 0
       case Balked => false
       case Gone => false
       case _ => true
  }

  predicate BarberEnabled(s: State, i: nat) {
    && i < |s.barbers|
    && match s.barbers[i]
       case BIdle => s.onSofa > 0
       case BWantQueue => s.chairMutex > 0
       case BPop => s.chairQ.waiting != []
       case BCall(e) => e < |s.cust|
       case BAwaitPayment => s.payment > 0
       case BWantTill => s.cashier > 0
       case _ => true
  }

  predicate UsherEnabled(s: State, i: nat) {
    && i < |s.ushers|
    && match s.ushers[i]
       case UIdle => s.arrive > 0
       case UWantQueue => s.sofaMutex > 0
       case UPop => s.sofaQ.waiting != []
       case UCall(e) => e < |s.cust|
       case UAwaitSeat => s.leaveSofa > 0
       case _ => true
  }

  predicate Enabled(s: State, t: Thread) {
    match t
    case C(i) => CustomerEnabled(s, i)
    case B(i) => BarberEnabled(s, i)
    case U(i) => UsherEnabled(s, i)
  }

  /** Customer i with its next program point and semaphores. */
  function NextCustomer(s: State, i: nat): Customer
    requires CustomerEnabled(s, i)
  {
    var c := s.cust[i];
    match c.pc
    case Arrive => c.(pc := TestFull)
    case TestFull => c.(pc := if s.num == s.capacity then Balk else Admit)
    case Balk => c.(pc := Balked)
    case Admit => c.(pc := Admitted)
    case Admitted => c.(pc := WantSofaQ)
    case WantSofaQ => c.(pc := JoinSofaQ)
    case JoinSofaQ => c.(pc := UnlockSofaQ)
    case UnlockSofaQ => c.(pc := CallUsher)
    case CallUsher => c.(pc := AwaitSofa)
    case AwaitSofa => c.(pc := WantChairQ, sofaSem := c.sofaSem - 1)
    case WantChairQ => c.(pc := JoinChairQ)
    case JoinChairQ => c.(pc := UnlockChairQ)
    case UnlockChairQ => c.(pc := CallBarber)
    case CallBarber => c.(pc := AwaitChair)
    case AwaitChair => c.(pc := LeaveSofa, chairSem := c.chairSem - 1)
    case LeaveSofa => c.(pc := Pay)
    case Pay => c.(pc := AwaitReceipt)
    case AwaitReceipt => c.(pc := WantCount)
    case WantCount => c.(pc := Uncount)
    case Uncount => c.(pc := UnlockCount)
    case UnlockCount => c.(pc := Gone)
  }

  /** The shared state after a customer's statement. */
  function CustomerShared(s: State, i: nat): State
    requires CustomerEnabled(s, i)
  {
    match s.cust[i].pc
    case Arrive => s.(numMutex := s.numMutex - 1)
    case Balk => s.(numMutex := s.numMutex + 1)
    case Admit => s.(num := s.num + 1)
    case Admitted => s.(numMutex := s.numMutex + 1)
    case WantSofaQ => s.(sofaMutex := s.sofaMutex - 1)
    case JoinSofaQ => s.(sofaQ := Push(s.sofaQ, i))
    case UnlockSofaQ => s.(sofaMutex := s.sofaMutex + 1)
    case CallUsher => s.(arrive := s.arrive + 1)
    case WantChairQ => s.(chairMutex := s.chairMutex - 1)
    case JoinChairQ => s.(chairQ := Push(s.chairQ, i))
    case UnlockChairQ => s.(chairMutex := s.chairMutex + 1)
    case CallBarber => s.(onSofa := s.onSofa + 1)
    case LeaveSofa => s.(leaveSofa := s.leaveSofa + 1)
    case Pay => s.(payment := s.payment + 1)
    case AwaitReceipt => s.(receipt := s.receipt - 1)
    case WantCount => s.(numMutex := s.numMutex - 1)
    case Uncount => s.(num := s.num - 1)
    case UnlockCount => s.(numMutex := s.numMutex + 1)
    case _ => s
  }

  function BarberStep(s: State, i: nat): State
    requires BarberEnabled(s, i)
  {
    match s.barbers[i]
    case BIdle => s.(onSofa := s.onSofa - 1, barbers := s.barbers[i := BWantQueue])
    case BWantQueue => s.(chairMutex := s.chairMutex - 1, barbers := s.barbers[i := BPop])
    case BPop => s.(chairQ := Pop(s.chairQ), barbers := s.barbers[i := BUnlock(s.chairQ.waiting[0])])
    case BUnlock(e) => s.(chairMutex := s.chairMutex + 1, barbers := s.barbers[i := BCall(e)])
    case BCall(e) =>
      s.(cust := s.cust[e := s.cust[e].(chairSem := s.cust[e].chairSem + 1)], chairQ := Called(s.chairQ, e),
         barbers := s.barbers[i := BAwaitPayment])
    case BAwaitPayment => s.(payment := s.payment - 1, barbers := s.barbers[i := BWantTill])
    case BWantTill => s.(cashier := s.cashier - 1, barbers := s.barbers[i := BLeaveTill])
    case BLeaveTill => s.(cashier := s.cashier + 1, barbers := s.barbers[i := BGiveReceipt])
    case BGiveReceipt => s.(receipt := s.receipt + 1, barbers := s.barbers[i := BIdle])
  }

  function UsherStep(s: State, i: nat): State
    requires UsherEnabled(s, i)
  {
    match s.ushers[i]
    case UIdle => s.(arrive := s.arrive - 1, ushers := s.ushers[i := UWantQueue])
    case UWantQueue => s.(sofaMutex := s.sofaMutex - 1, ushers := s.ushers[i := UPop])
    case UPop => s.(sofaQ := Pop(s.sofaQ), ushers := s.ushers[i := UUnlock(s.sofaQ.waiting[0])])
    case UUnlock(e) => s.(sofaMutex := s.sofaMutex + 1, ushers := s.ushers[i := UCall(e)])
    case UCall(e) =>
      s.(cust := s.cust[e := s.cust[e].(sofaSem := s.cust[e].sofaSem + 1)], sofaQ := Called(s.sofaQ, e),
         ushers := s.ushers[i := UAwaitSeat])
    case UAwaitSeat => s.(leaveSofa := s.leaveSofa - 1, ushers := s.ushers[i := UIdle])
  }

  function Step(s: State, t: Thread): State
    requires Enabled(s, t)
  {
    match t
    case C(i) => CustomerShared(s, i).(cust := s.cust[i := NextCustomer(s, i)])
    case B(i) => BarberStep(s, i)
    case U(i) => UsherStep(s, i)
  }

  /** The state after a schedule, any sequence of threads; scheduling a blocked thread changes nothing. */
  ghost function After(s: State, sched: seq<Thread>): State {
    if sched == [] then s
    else
      var s', t := After(s, sched[..|sched| - 1]), sched[|sched| - 1];
      if Enabled(s', t) then Step(s', t) else s'
  }
}

/**
 The life of a slot of the process table: for every operation and every slot, exactly how each field
 changes, and what `wait` and `fork` hand back.
 */
module ProcLifeCycle {
  import opened Wrappers
  import opened ProcTypes
  import opened ProcTable
  import opened ProcTableTheorems
  import opened KillTheorems

  // ---------------------------------------------------------------- wait

  /** wait reaped slot z of the table: the slot is free and blank but for its tickets, the others are as before. */
  ghost predicate Freed(table: seq<Proc>, table': seq<Proc>, z: nat) {
    && z < |table| == |table'|
    && table'[z].state == UNUSED && table'[z].pid == 0 && table'[z].parent == None && !table'[z].killed
    && forall i :: 0 <= i < |table| && i != z ==> table'[i] == table[i]
  }

  /**
   In every run, what wait answers: the pid of a dead child that it has freed; -1 exactly if there is no dead child
   and no child at all, or the caller was killed; otherwise it goes to sleep on itself.
   */
  lemma WaitAnswers(slots: nat, ops: seq<Op>, p: nat)
    requires p < slots && Enabled(After(slots, ops), Wait(p))
    ensures |After(slots, ops).table| == slots
    ensures var t := After(slots, ops).table;
            var (t', r) := WaitOnce(t, p);
            && (r.Returned? && r.pid != -1 ==>
                  r.pid >= 1 && exists z: nat :: Freed(t, t', z) && DeadChildOf(p)(t[z]) && t[z].pid == r.pid)
            && (r == Returned(-1) <==> !HasDeadKid(t, p) && (!HasKids(t, p) || t[p].killed))
            && (r == Asleep <==> !HasDeadKid(t, p) && HasKids(t, p) && !t[p].killed)
            && (r == Returned(-1) ==> t' == t)
            && (r == Asleep ==> t' == t[p := t'[p]] && SleepsOn(t'[p], Some(OnProc(p))))
  {
    hide Inv, After, First, HasKids, Enabled;
    Reachable(slots, ops);
    var s := After(slots, ops);
    DeadKidFound(s.table, p);
    match First(s.table, DeadChildOf(p))
    case None =>
    case Some(z) =>
      InvPidPositive(s, z);
      assert Freed(s.table, WaitOnce(s.table, p).0, z);
  }

  lemma DeadKidFound(table: seq<Proc>, p: nat)
    ensures HasDeadKid(table, p) <==> First(table, DeadChildOf(p)).Some?
    ensures var r := First(table, DeadChildOf(p)); r.Some? ==> r.value < |table| && DeadChildOf(p)(table[r.value])
  {
    hide First;
    var r := First(table, DeadChildOf(p));
    if r.None? { assert forall i :: 0 <= i < |table| ==> !DeadChildOf(p)(table[i]); }
  }

  // ---------------------------------------------------------------- the state of a slot

  /** The operation is a wait that goes to sleep. */
  predicate Dozes(s: Sys, op: Op, i: nat) {
    op == Wait(i) && i < |s.table| && !HasDeadKid(s.table, i) && HasKids(s.table, i) && !s.table[i].killed
  }

  /** The operation wakes a process asleep in slot i: its channel, a kill, or the exit of its child or heir's child. */
  predicate Wakes(s: Sys, op: Op, i: nat)
    requires i < |s.table|
  {
    var x := s.table[i];
    x.state == SLEEPING &&
    (|| (op.Wakeup? && x.chan == Some(OnObject(op.id)))
     || Hits(s, op, i)
     || (op.Exit? && op.p < |s.table| && s.table[op.p].parent == Some(i) && x.chan == Some(OnProc(i)))
     || (op.Exit? && i == INIT && x.chan == Some(OnProc(INIT)) && HasDeadKid(s.table, op.p)))
  }

  predicate ChildOf(s: Sys, op: Op, i: nat) {
    !op.Wakeup? && op.p < |s.at| && Forking(s.at[op.p]) && s.at[op.p].child == i
  }

  /** The state that operation `op` gives slot i. */
  ghost function NextState(s: Sys, op: Op, i: nat): ProcState
    requires i < |s.table|
  {
    if op == Exit(i) then ZOMBIE
    else if op == Dispatch(i) then RUNNING
    else if op == Yield(i) || (op.Release? && ChildOf(s, op, i)) || Wakes(s, op, i) then RUNNABLE
    else if (op.Sleep? && op.p == i) || Dozes(s, op, i) then SLEEPING
    else if Allocates(s, op, i) then EMBRYO
    else if GivesUp(s, op, i) || Reaps(s, op, i) then UNUSED
    else s.table[i].state
  }

  /** Exactly how every operation changes the state of every slot. */
  lemma StateStep(s: Sys, op: Op, i: nat)
    requires Inv(s) && Enabled(s, op) && i < |s.table|
    ensures |Step(s, op).table| == |s.table| && Step(s, op).table[i].state == NextState(s, op, i)
  {
    hide Inv, First, HasKids, HasDeadKid;
    if op.Exit? {
      ExitState(s, op.p, i);
    } else if op.Wait? {
      WaitState(s, op.p, i);
    } else if op.Alloc? || op.GiveUp? || op.GetStack? || op.Copy? || op.Release? {
      ForkState(s, op, i);
    } else {
      OtherState(s, op, i);
    }
  }

  lemma ForkState(s: Sys, op: Op, i: nat)
    requires Inv(s) && Enabled(s, op) && i < |s.table|
    requires op.Alloc? || op.GiveUp? || op.GetStack? || op.Copy? || op.Release?
    ensures |Step(s, op).table| == |s.table| && Step(s, op).table[i].state == NextState(s, op, i)
  {
    hide First, Pids, Parents, Forks, Waits, HasKids, HasDeadKid;
    if op.GiveUp? || op.Copy? || op.Release? { BuiltChild(s, op.p); }
  }

  lemma OtherState(s: Sys, op: Op, i: nat)
    requires Enabled(s, op) && i < |s.table|
    requires op.Sleep? || op.Yield? || op.Dispatch? || op.SetTickets? || op.Kill? || op.Wakeup?
    ensures |Step(s, op).table| == |s.table| && Step(s, op).table[i].state == NextState(s, op, i)
  {
    hide First, HasKids, HasDeadKid;
  }

  lemma WaitState(s: Sys, p: nat, i: nat)
    requires Inv(s) && Enabled(s, Wait(p)) && i < |s.table|
    ensures |Step(s, Wait(p)).table| == |s.table| && Step(s, Wait(p)).table[i].state == NextState(s, Wait(p), i)
  {
    hide Inv, First, HasKids;
    DeadKidFound(s.table, p);
  }

  lemma ExitState(s: Sys, p: nat, i: nat)
    requires Inv(s) && Enabled(s, Exit(p)) && i < |s.table|
    ensures |Step(s, Exit(p)).table| == |s.table| && Step(s, Exit(p)).table[i].state == NextState(s, Exit(p), i)
  {
    hide Pids, Forks, Parents, HasDeadKid;
    assert SleepOk(s.table[i], s.table, i);
    assert SleepOk(s.table[INIT], s.table, INIT) by { InitInTable(s); }
    ExitTable(s.table, p);
    SameDeadKids(s.table, ChanOf(s.table[p].parent), p);
    InitParent(s, p);
  }

  /** Waking somebody up changes no dead child. */
  lemma SameDeadKids(table: seq<Proc>, chan: Option<Chan>, p: nat)
    ensures HasDeadKid(Woken(table, chan), p) <==> HasDeadKid(table, p)
  {
    var t := Woken(table, chan);
    assert forall i :: 0 <= i < |table| ==>
             t[i].parent == table[i].parent && (t[i].state == ZOMBIE <==> table[i].state == ZOMBIE);
  }

  lemma InitParent(s: Sys, p: nat)
    requires Parents(s) && p < |s.table| && p != INIT && s.table[p].state == RUNNING
    ensures s.table[p].parent.Some? && s.table[p].parent.value < |s.table| && INIT < |s.table|
  {
    assert ParentOk(s.table, p);
  }

  // ---------------------------------------------------------------- the other fields

  /** Exactly how every operation changes parent, pid, channel and tickets of every slot. */
  lemma FieldStep(s: Sys, op: Op, i: nat)
    requires Inv(s) && Enabled(s, op) && i < |s.table|
    ensures |Step(s, op).table| == |s.table|
    ensures var x, y := s.table[i], Step(s, op).table[i];
            && y.parent == (if op.Copy? && ChildOf(s, op, i) then Some(op.p)
                            else if Reaps(s, op, i) then None
                            else if op.Exit? && x.parent == Some(op.p) then Some(INIT)
                            else x.parent)
            && y.pid == (if Allocates(s, op, i) then s.nextpid else if Reaps(s, op, i) then 0 else x.pid)
            && y.chan == (if op.Sleep? && op.p == i then Some(OnObject(op.id))
                          else if Dozes(s, op, i) then Some(OnProc(i))
                          else if op == Dispatch(i) then None
                          else x.chan)
  {
    hide Pids, Parents, Forks, Waits, First, HasKids, HasDeadKid;
    if op.GiveUp? || op.Copy? || op.Release? { BuiltChild(s, op.p); }
    if op.Wait? { DeadKidFound(s.table, op.p); }
    if op.Exit? { NotOwnParent(s, op.p); }
  }

  lemma TicketStep(s: Sys, op: Op, i: nat)
    requires Inv(s) && Enabled(s, op) && i < |s.table|
    ensures |Step(s, op).table| == |s.table|
    ensures Step(s, op).table[i].tickets ==
            if Allocates(s, op, i) then 1
            else if op.Copy? && ChildOf(s, op, i) then s.table[op.p].tickets
            else if op.SetTickets? && op.p == i then op.tickets
            else s.table[i].tickets
  {
    hide Pids, Parents, Forks, Waits, First, HasKids, HasDeadKid;
    if op.GiveUp? || op.Copy? || op.Release? { BuiltChild(s, op.p); }
    if op.SetTickets? { FirstWithPid(s, op.p); }
  }

  // ---------------------------------------------------------------- fork

  /** A fork without interference makes one new process: the caller's child, with a fresh pid and its tickets. */
  lemma ForkMakesChild(s: Sys, p: nat, c: nat)
    requires Inv(s) && Enabled(s, Alloc(p)) && First(s.table, Unused) == Some(c)
    ensures c < |s.table| && Enabled(Step(s, Alloc(p)), GetStack(p))
    ensures var a := Step(Step(s, Alloc(p)), GetStack(p));
            && Enabled(a, Copy(p)) && Enabled(Step(a, Copy(p)), Release(p))
            && Step(Step(a, Copy(p)), Release(p)) ==
               Sys(s.table[c := s.table[c].(state := RUNNABLE, pid := s.nextpid, parent := Some(p),
                                            tickets := s.table[p].tickets)],
                   s.nextpid + 1, s.at)
  {
    hide Pids, Parents, Forks, Waits, First;
    var a := Step(Step(s, Alloc(p)), GetStack(p));
    assert c != p;
    assert s.at[p := Idle] == s.at;
  }
}

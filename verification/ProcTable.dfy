/**
 The process table of projects/scheduling-xv6-lottery/src/proc.c as a transition system: any
 number of slots, any interleaving of fork, exit, wait, sleep, wakeup, kill, settickets and
 dispatches. A step is one section under ptable.lock, or an unlocked part of fork between two
 writes that other processes can see.
 ProcOps.dfy holds the table-scanning loops themselves.
 */
module ProcTable {
  import opened Wrappers
  import opened ProcTypes

  /** Where a process is inside fork or wait. */
  datatype At =
    | Idle
    | Allocated(child: nat)  // allocproc took a slot; the kernel stack is still missing
    | Stacked(child: nat)    // before copyuvm
    | Copied(child: nat)     // np->parent is set; the child is not yet RUNNABLE
    | InWait                 // inside wait's call of sleep

  datatype Sys = Sys(table: seq<Proc>, nextpid: int, at: seq<At>)

  /** initproc: userinit takes the first slot. */
  const INIT: nat := 0

  const FREE := Proc(UNUSED, 0, None, None, false, 0)

  /** After userinit. */
  function Boot(slots: nat): Sys
    requires slots > 0
  {
    Sys(seq(slots, i => if i == INIT then Proc(RUNNABLE, 1, None, None, false, 1) else FREE), 2, seq(slots, _ => Idle))
  }

  // ---------------------------------------------------------------- what the loops compute

  /** The first slot that satisfies `f`. */
  function First(table: seq<Proc>, f: Proc -> bool): (r: Option<nat>)
    ensures r.Some? ==> r.value < |table| && f(table[r.value]) && forall i :: 0 <= i < r.value ==> !f(table[i])
    ensures r.None? ==> forall i :: 0 <= i < |table| ==> !f(table[i])
  {
    if table == [] then None
    else
      var r := First(table[..|table| - 1], f);
      if r.Some? then r else if f(table[|table| - 1]) then Some(|table| - 1) else None
  }

  /** A hit after a prefix without one is the first. */
  lemma {:induction false} FirstPrefix(table: seq<Proc>, f: Proc -> bool, i: nat)
    requires i < |table| && First(table[..i], f) == None && f(table[i])
    ensures First(table, f) == Some(i)
  {
    var front := table[..|table| - 1];
    if i < |front| {
      assert front[..i] == table[..i];
      FirstPrefix(front, f, i);
    }
  }

  lemma FirstHit(table: seq<Proc>, f: Proc -> bool, i: nat)
    requires i < |table|
    ensures f(table[i]) ==> First(table, f).Some? && First(table, f).value <= i
  {
  }

  predicate Unused(p: Proc) { p.state == UNUSED }

  function HasPid(pid: int): Proc -> bool { (p: Proc) => p.pid == pid }

  function DeadChildOf(me: nat): Proc -> bool { (p: Proc) => p.parent == Some(me) && p.state == ZOMBIE }

  predicate HasKids(table: seq<Proc>, me: nat) {
    exists i :: 0 <= i < |table| && table[i].parent == Some(me)
  }

  predicate SleepsOn(p: Proc, chan: Option<Chan>) { p.state == SLEEPING && p.chan == chan }

  function WokenProc(p: Proc, chan: Option<Chan>): Proc {
    if SleepsOn(p, chan) then p.(state := RUNNABLE) else p
  }

  /** wakeup1 */
  function Woken(table: seq<Proc>, chan: Option<Chan>): (r: seq<Proc>)
    ensures |r| == |table|
  {
    seq(|table|, i requires 0 <= i < |table| => WokenProc(table[i], chan))
  }

  /** The pointer to a process, as a channel. */
  function ChanOf(p: Option<nat>): Option<Chan> {
    match p case None => None case Some(q) => Some(OnProc(q))
  }

  function AdoptedProc(p: Proc, me: nat): Proc {
    if p.parent == Some(me) then p.(parent := Some(INIT)) else p
  }

  function Adopted(table: seq<Proc>, me: nat): (r: seq<Proc>)
    ensures |r| == |table|
  {
    seq(|table|, i requires 0 <= i < |table| => AdoptedProc(table[i], me))
  }

  predicate HasDeadKid(table: seq<Proc>, me: nat) {
    exists i :: 0 <= i < |table| && table[i].parent == Some(me) && table[i].state == ZOMBIE
  }

  /** The children of `me` pass to initproc, which is woken if one of them is dead. */
  function Abandoned(table: seq<Proc>, me: nat): (r: seq<Proc>)
    ensures |r| == |table|
  {
    if HasDeadKid(table, me) then Woken(Adopted(table, me), ChanOf(Some(INIT))) else Adopted(table, me)
  }

  /** The locked part of exit. */
  function Exited(table: seq<Proc>, me: nat): (r: seq<Proc>)
    requires me < |table|
    ensures |r| == |table|
  {
    var t := Abandoned(Woken(table, ChanOf(table[me].parent)), me);
    t[me := t[me].(state := ZOMBIE)]
  }

  datatype Waited = Returned(pid: int) | Asleep

  /** One round of wait: reap the first dead child, give up, or go to sleep. */
  function WaitOnce(table: seq<Proc>, me: nat): (r: (seq<Proc>, Waited))
    requires me < |table|
    ensures |r.0| == |table|
  {
    match First(table, DeadChildOf(me))
    case Some(z) =>
      (table[z := table[z].(pid := 0, parent := None, killed := false, state := UNUSED)], Returned(table[z].pid))
    case None =>
      if !HasKids(table, me) || table[me].killed then (table, Returned(-1))
      else (table[me := table[me].(chan := Some(OnProc(me)), state := SLEEPING)], Asleep)
  }

  function Killed(table: seq<Proc>, pid: int): (r: seq<Proc>)
    ensures |r| == |table|
  {
    match First(table, HasPid(pid))
    case None => table
    case Some(i) =>
      table[i := table[i].(killed := true, state := if table[i].state == SLEEPING then RUNNABLE else table[i].state)]
  }

  /** settickets of process `me`: the first slot with its pid. */
  function Ticketed(table: seq<Proc>, me: nat, tickets: int): (r: seq<Proc>)
    requires me < |table|
    ensures |r| == |table|
  {
    match First(table, HasPid(table[me].pid))
    case None => table
    case Some(i) => table[i := table[i].(tickets := tickets)]
  }

  // ---------------------------------------------------------------- steps

  datatype Op =
    | Alloc(p: nat)                  // fork: allocproc's locked section
    | GiveUp(p: nat)                 // fork: kalloc or copyuvm failed
    | GetStack(p: nat)               // fork: kalloc succeeded
    | Copy(p: nat)                   // fork: copyuvm succeeded; parent and tickets are set
    | Release(p: nat)                // fork: the child becomes RUNNABLE
    | Exit(p: nat)
    | Wait(p: nat)                   // one round of wait, first or after a wakeup
    | Sleep(p: nat, id: int)         // sleep on a kernel object
    | Wakeup(id: int)
    | Kill(p: nat, pid: int)         // process p kills the process with this pid
    | SetTickets(p: nat, tickets: int)
    | Dispatch(p: nat)               // the scheduler picks p, which finishes its sleep if it was in one
    | Yield(p: nat)

  predicate Running(s: Sys, p: nat) {
    p < |s.table| == |s.at| && s.table[p].state == RUNNING
  }

  predicate Enabled(s: Sys, op: Op) {
    match op
    case Alloc(p) => Running(s, p) && s.at[p] == Idle
    case GiveUp(p) => Running(s, p) && (s.at[p].Allocated? || s.at[p].Stacked?) && s.at[p].child < |s.table|
    case GetStack(p) => Running(s, p) && s.at[p].Allocated?
    case Copy(p) => Running(s, p) && s.at[p].Stacked? && s.at[p].child < |s.table|
    case Release(p) => Running(s, p) && s.at[p].Copied? && s.at[p].child < |s.table|
    case Exit(p) => Running(s, p) && s.at[p] == Idle && p != INIT  // initproc panics
    case Wait(p) => Running(s, p) && (s.at[p] == Idle || s.at[p] == InWait)
    case Sleep(p, id) => Running(s, p) && s.at[p] != InWait
    case Wakeup(id) => true
    case Kill(p, pid) => Running(s, p) && s.at[p] == Idle
    case SetTickets(p, tickets) => Running(s, p) && s.at[p] == Idle && tickets >= 1
    case Dispatch(p) => p < |s.table| && s.table[p].state == RUNNABLE
    case Yield(p) => Running(s, p) && s.at[p] != InWait
  }

  function Update(s: Sys, i: nat, p: Proc): Sys
    requires i < |s.table|
  {
    s.(table := s.table[i := p])
  }

  function Step(s: Sys, op: Op): Sys
    requires Enabled(s, op)
  {
    match op
    case Alloc(p) => (
      match First(s.table, Unused)
      case None => s
      case Some(c) =>
        Sys(s.table[c := s.table[c].(state := EMBRYO, pid := s.nextpid, tickets := 1)], s.nextpid + 1,
            s.at[p := Allocated(c)]))
    case GiveUp(p) =>
      var c := s.at[p].child;
      s.(table := s.table[c := s.table[c].(state := UNUSED)], at := s.at[p := Idle])
    case GetStack(p) => s.(at := s.at[p := Stacked(s.at[p].child)])
    case Copy(p) =>
      var c := s.at[p].child;
      s.(table := s.table[c := s.table[c].(parent := Some(p), tickets := s.table[p].tickets)],
         at := s.at[p := Copied(c)])
    case Release(p) =>
      var c := s.at[p].child;
      s.(table := s.table[c := s.table[c].(state := RUNNABLE)], at := s.at[p := Idle])
    case Exit(p) => s.(table := Exited(s.table, p))
    case Wait(p) =>
      var (table, r) := WaitOnce(s.table, p);
      s.(table := table, at := s.at[p := if r == Asleep then InWait else Idle])
    case Sleep(p, id) => Update(s, p, s.table[p].(chan := Some(OnObject(id)), state := SLEEPING))
    case Wakeup(id) => s.(table := Woken(s.table, Some(OnObject(id))))
    case Kill(_, pid) => s.(table := Killed(s.table, pid))
    case SetTickets(p, tickets) => s.(table := Ticketed(s.table, p, tickets))
    case Dispatch(p) => Update(s, p, s.table[p].(state := RUNNING, chan := None))
    case Yield(p) => Update(s, p, s.table[p].(state := RUNNABLE))
  }

  /** The system after any sequence of operations; one that is not possible changes nothing. */
  ghost function After(slots: nat, ops: seq<Op>): Sys
    requires slots > 0
  {
    if ops == [] then Boot(slots)
    else
      var s, op := After(slots, ops[..|ops| - 1]), ops[|ops| - 1];
      if Enabled(s, op) then Step(s, op) else s
  }
}

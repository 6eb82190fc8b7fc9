/** The process table entries of projects/scheduling-xv6-lottery/src/proc.h. */
module ProcTypes {
  import opened Wrappers

  datatype ProcState = UNUSED | EMBRYO | SLEEPING | RUNNABLE | RUNNING | ZOMBIE

  /** What a process sleeps on: a process (only `wait` does that) or any other kernel object. */
  datatype Chan = OnProc(slot: nat) | OnObject(id: int)

  /** The parent is given by its slot in the table. */
  datatype Proc = Proc(
    state: ProcState,
    pid: int,
    parent: Option<nat>,
    chan: Option<Chan>,
    killed: bool,
    tickets: int)

  /** Nobody has a negative number of tickets. */
  predicate NoDebt(table: seq<Proc>) {
    forall i :: 0 <= i < |table| ==> table[i].tickets >= 0
  }
}

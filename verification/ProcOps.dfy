/**
 The operations of projects/scheduling-xv6-lottery/src/proc.c on the table itself: each method is a
 section run under ptable.lock, with the loops of the source, and is proved against the
 table functions of ProcTable.dfy.
 */
module ProcOps {
  import opened Wrappers
  import opened ProcTypes
  import T = ProcTable

  class Ptable {
    const proc: array<Proc>
    var nextpid: int

    /** Free slots, and the first process of userinit. */
    constructor (slots: nat)
      requires slots > 0
      ensures fresh(proc) && proc[..] == T.Boot(slots).table && nextpid == T.Boot(slots).nextpid
    {
      proc := new Proc[slots](_ => T.FREE);
      nextpid := 2;
      new;
      proc[T.INIT] := Proc(RUNNABLE, 1, None, None, false, 1);
      assert proc[..] == T.Boot(slots).table;
    }

    /** allocproc's locked section. */
    method AllocProc() returns (slot: Option<nat>)
      modifies this`nextpid, proc
      ensures slot == T.First(old(proc[..]), T.Unused)
      ensures slot.None? ==> proc[..] == old(proc[..]) && nextpid == old(nextpid)
      ensures slot.Some? ==> nextpid == old(nextpid) + 1
      ensures slot.Some? ==>
                var was := old(proc[..]);
                proc[..] == was[slot.value := was[slot.value].(state := EMBRYO, pid := old(nextpid), tickets := 1)]
    {
      ghost var was := proc[..];
      for i := 0 to proc.Length
        invariant T.First(was[..i], T.Unused) == None
        invariant proc[..] == was && nextpid == old(nextpid)
      {
        assert was[..i + 1][..i] == was[..i];
        if proc[i].state == UNUSED {
          T.FirstPrefix(was, T.Unused, i);
          proc[i] := proc[i].(state := EMBRYO, pid := nextpid, tickets := 1);
          nextpid := nextpid + 1;
          return Some(i);
        }
      }
      assert was[..proc.Length] == was;
      return None;
    }

    /** fork, with the memory allocations of the child as given outcomes; nobody else runs in between. */
    method Fork(me: nat, stack: bool, space: bool) returns (pid: int)
      requires me < proc.Length && proc[me].state == RUNNING
      modifies this`nextpid, proc
      ensures var c := T.First(old(proc[..]), T.Unused);
              if c.None? then pid == -1 && proc[..] == old(proc[..]) && nextpid == old(nextpid)
              else
                var was := old(proc[..])[c.value];
                && nextpid == old(nextpid) + 1
                && pid == (if stack && space then old(nextpid) else -1)
                && proc[..] == old(proc[..])[c.value :=
                     if stack && space
                     then was.(state := RUNNABLE, pid := old(nextpid), parent := Some(me),
                               tickets := old(proc[me].tickets))
                     else was.(pid := old(nextpid), tickets := 1)]
    {
      var slot := AllocProc();
      if slot.None? {
        return -1;
      }
      var c := slot.value;
      if !stack || !space {
        proc[c] := proc[c].(state := UNUSED);
        return -1;
      }
      proc[c] := proc[c].(parent := Some(me));
      proc[c] := proc[c].(tickets := proc[me].tickets);
      pid := proc[c].pid;
      proc[c] := proc[c].(state := RUNNABLE);
    }

    method Wakeup1(chan: Option<Chan>)
      modifies proc
      ensures proc[..] == T.Woken(old(proc[..]), chan)
    {
      for i := 0 to proc.Length
        invariant forall k :: 0 <= k < i ==> proc[k] == T.WokenProc(old(proc[k]), chan)
        invariant forall k :: i <= k < proc.Length ==> proc[k] == old(proc[k])
      {
        if proc[i].state == SLEEPING && proc[i].chan == chan {
          proc[i] := proc[i].(state := RUNNABLE);
        }
      }
    }

    /** exit's locked section, up to the switch into the scheduler; initproc panics instead. */
    method Exit(me: nat) returns (panicked: bool)
      requires me < proc.Length && proc[me].state == RUNNING
      modifies proc
      ensures panicked == (me == T.INIT)
      ensures proc[..] == if panicked then old(proc[..]) else T.Exited(old(proc[..]), me)
    {
      if me == T.INIT {
        return true;
      }
      Wakeup1(T.ChanOf(proc[me].parent));
      Abandon(me);
      proc[me] := proc[me].(state := ZOMBIE);
      return false;
    }

    /** The loop that passes children to initproc. */
    method Abandon(me: nat)
      requires me != T.INIT
      modifies proc
      ensures proc[..] == T.Abandoned(old(proc[..]), me)
    {
      ghost var was := proc[..];
      ghost var chan := T.ChanOf(Some(T.INIT));
      ghost var woken := false;
      for i := 0 to proc.Length
        invariant woken <==> exists k :: 0 <= k < i && T.DeadChildOf(me)(was[k])
        invariant forall k :: 0 <= k < i ==>
                    proc[k] == if woken then T.WokenProc(T.AdoptedProc(was[k], me), chan) else T.AdoptedProc(was[k], me)
        invariant forall k :: i <= k < proc.Length ==> proc[k] == if woken then T.WokenProc(was[k], chan) else was[k]
      {
        if proc[i].parent == Some(me) {
          proc[i] := proc[i].(parent := Some(T.INIT));
          if proc[i].state == ZOMBIE {
            Wakeup1(Some(OnProc(T.INIT)));
            woken := true;
          }
        }
      }
      assert woken <==> T.HasDeadKid(was, me);
    }

    /** The scan of wait: the first dead child, or else whether there is any child. */
    method ScanKids(me: nat) returns (dead: Option<nat>, havekids: bool)
      ensures dead == T.First(proc[..], T.DeadChildOf(me))
      ensures dead == None ==> havekids == T.HasKids(proc[..], me)
    {
      havekids := false;
      for i := 0 to proc.Length
        invariant T.First(proc[..i], T.DeadChildOf(me)) == None
        invariant havekids <==> exists k :: 0 <= k < i && proc[k].parent == Some(me)
      {
        assert proc[..i + 1][..i] == proc[..i];
        if proc[i].parent != Some(me) {
          continue;
        }
        havekids := true;
        if proc[i].state == ZOMBIE {
          assert proc[..][..i] == proc[..i];
          T.FirstPrefix(proc[..], T.DeadChildOf(me), i);
          return Some(i), true;
        }
      }
      assert proc[..proc.Length] == proc[..];
      return None, havekids;
    }

    /** One round of wait's loop, up to its call of sleep. */
    method WaitRound(me: nat) returns (r: T.Waited)
      requires me < proc.Length
      modifies proc
      ensures (proc[..], r) == T.WaitOnce(old(proc[..]), me)
    {
      hide T.First, T.HasKids;
      ghost var was := proc[..];
      var dead, havekids := ScanKids(me);
      if dead.Some? {
        var i := dead.value;
        r := T.Returned(proc[i].pid);
        proc[i] := proc[i].(pid := 0);
        proc[i] := proc[i].(parent := None);
        proc[i] := proc[i].(killed := false);
        proc[i] := proc[i].(state := UNUSED);
        assert proc[..] == was[i := was[i].(pid := 0, parent := None, killed := false, state := UNUSED)];
      } else if !havekids || proc[me].killed {
        r := T.Returned(-1);
      } else {
        proc[me] := proc[me].(chan := Some(OnProc(me)));
        proc[me] := proc[me].(state := SLEEPING);
        assert proc[..] == was[me := was[me].(chan := Some(OnProc(me)), state := SLEEPING)];
        r := T.Asleep;
      }
    }

    method Kill(pid: int) returns (r: int)
      modifies proc
      ensures proc[..] == T.Killed(old(proc[..]), pid)
      ensures r == if T.First(old(proc[..]), T.HasPid(pid)).Some? then 0 else -1
    {
      ghost var was := proc[..];
      for i := 0 to proc.Length
        invariant T.First(was[..i], T.HasPid(pid)) == None
        invariant proc[..] == was
      {
        assert was[..i + 1][..i] == was[..i];
        if proc[i].pid == pid {
          T.FirstPrefix(was, T.HasPid(pid), i);
          proc[i] := proc[i].(killed := true);
          if proc[i].state == SLEEPING {
            proc[i] := proc[i].(state := RUNNABLE);
          }
          return 0;
        }
      }
      assert was[..proc.Length] == was;
      return -1;
    }

    /** settickets; the scan stops at the caller's own slot at the latest. */
    method SetTickets(me: nat, number: int) returns (r: int)
      requires me < proc.Length
      modifies proc
      ensures r == 0 && proc[..] == T.Ticketed(old(proc[..]), me, number)
    {
      ghost var was := proc[..];
      var currentpid := proc[me].pid;
      var i := 0;
      while proc[i].pid != currentpid
        decreases me - i
        invariant i <= me && proc[..] == was && T.First(was[..i], T.HasPid(currentpid)) == None
      {
        assert was[..i + 1][..i] == was[..i];
        i := i + 1;
      }
      T.FirstPrefix(was, T.HasPid(currentpid), i);
      proc[i] := proc[i].(tickets := number);
      return 0;
    }
  }
}

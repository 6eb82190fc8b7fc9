/**
 Which processes are killed: the flag `killed` over every run. It belongs to the slot, and only
 `wait` clears it, so it can outlive the process it was meant for.
 */
module KillTheorems {
  import opened Wrappers
  import opened ProcTypes
  import opened ProcTable
  import opened ProcTableTheorems

  // ---------------------------------------------------------------- what one operation does to a slot

  /** The operation is a kill that hits slot c. */
  predicate Hits(s: Sys, op: Op, c: nat) {
    op.Kill? && First(s.table, HasPid(op.pid)) == Some(c)
  }

  /** The operation is a wait that reaps slot c. */
  predicate Reaps(s: Sys, op: Op, c: nat) {
    op.Wait? && First(s.table, DeadChildOf(op.p)) == Some(c)
  }

  /** The operation is a fork that allocates slot c, or gives it up again. */
  predicate Allocates(s: Sys, op: Op, c: nat) {
    op.Alloc? && First(s.table, Unused) == Some(c)
  }

  predicate GivesUp(s: Sys, op: Op, c: nat) {
    op.GiveUp? && op.p < |s.at| && Forking(s.at[op.p]) && s.at[op.p].child == c
  }

  /** A slot is marked by a kill that hits it and cleared when it is reaped; nothing else changes the flag. */
  lemma FlagStep(s: Sys, op: Op, c: nat)
    requires Enabled(s, op) && c < |s.table|
    ensures |Step(s, op).table| == |s.table|
    ensures Step(s, op).table[c].killed <==> Hits(s, op, c) || (s.table[c].killed && !Reaps(s, op, c))
  {
    hide First, HasKids, HasDeadKid;
  }

  /**
   kill succeeds on a slot that is not in use exactly if such a slot carries the pid: always possible
   for pid 0, and for the pid of a fork that ran out of memory. The flag then waits for the
   next process that gets the slot.
   */
  lemma KillMarksFree(s: Sys, pid: int)
    requires Inv(s)
    ensures var r := First(s.table, HasPid(pid));
            (r.Some? && s.table[r.value].state == UNUSED) <==>
            exists i :: 0 <= i < |s.table| && s.table[i].state == UNUSED && s.table[i].pid == pid
  {
    hide First;
    var r := First(s.table, HasPid(pid));
    forall i | 0 <= i < |s.table| && s.table[i].state == UNUSED && s.table[i].pid == pid
      ensures r.Some? && s.table[r.value].state == UNUSED
    {
      FirstHit(s.table, HasPid(pid), i);
      assert PidsDiffer(s, r.value, i) && PidOk(s, r.value);
    }
  }

  predicate FreeAndMarked(p: Proc) { p.state == UNUSED && p.killed }

  /**
   How a free slot comes to be marked: it was before and is not allocated, a kill hits it while it is free, or
   it held an unfinished fork that was killed and is given up.
   */
  lemma FreeAndMarkedStep(s: Sys, op: Op, c: nat)
    requires Inv(s) && Enabled(s, op) && c < |s.table|
    ensures |Step(s, op).table| == |s.table|
    ensures FreeAndMarked(Step(s, op).table[c]) <==>
            || (FreeAndMarked(s.table[c]) && !Allocates(s, op, c))
            || (Hits(s, op, c) && s.table[c].state == UNUSED)
            || (GivesUp(s, op, c) && s.table[c].killed)
  {
    hide Inv, Hits, Step, Enabled;
    FlagStep(s, op, c);
    UnusedStep(s, op, c);
    ReapedWasDead(s, op, c);
  }

  lemma ReapedWasDead(s: Sys, op: Op, c: nat)
    requires c < |s.table|
    ensures Reaps(s, op, c) ==> s.table[c].state == ZOMBIE && !GivesUp(s, op, c) && !Hits(s, op, c)
    ensures Hits(s, op, c) ==> !GivesUp(s, op, c) && !Allocates(s, op, c)
  {
    hide First;
  }

  /** A slot becomes free when it is given up or reaped, and stops being free when it is allocated. */
  lemma UnusedStep(s: Sys, op: Op, c: nat)
    requires Inv(s) && Enabled(s, op) && c < |s.table|
    ensures |Step(s, op).table| == |s.table|
    ensures Step(s, op).table[c].state == UNUSED <==>
            (s.table[c].state == UNUSED && !Allocates(s, op, c)) || GivesUp(s, op, c) || Reaps(s, op, c)
  {
    hide First, Pids, Parents, Forks, Waits, HasKids, HasDeadKid;
    if op.GiveUp? || op.Copy? || op.Release? { BuiltChild(s, op.p); }
  }

  /** The process was released by its fork and has not been reaped. */
  predicate Formed(p: Proc) { p.state != UNUSED && p.state != EMBRYO }

  /** A process stays in its slot until it is reaped or its fork gives up; once formed, only reaping ends it. */
  lemma TenantStep(s: Sys, op: Op, c: nat)
    requires Inv(s) && Enabled(s, op) && c < |s.table|
    requires s.table[c].state != UNUSED && !Reaps(s, op, c)
    ensures |Step(s, op).table| == |s.table|
    ensures !GivesUp(s, op, c) ==> Step(s, op).table[c].state != UNUSED && Step(s, op).table[c].pid == s.table[c].pid
    ensures Formed(s.table[c]) ==> !GivesUp(s, op, c) && Formed(Step(s, op).table[c])
  {
    hide First, Pids, Parents, Forks, Waits, HasKids, HasDeadKid;
    if op.GiveUp? || op.Copy? || op.Release? { BuiltChild(s, op.p); }
  }

  // ---------------------------------------------------------------- over a whole run

  /** The state before operation k of a run. */
  ghost function Before(slots: nat, ops: seq<Op>, k: nat): Sys
    requires slots > 0 && k <= |ops|
  {
    After(slots, ops[..k])
  }

  ghost predicate HitAt(slots: nat, ops: seq<Op>, k: nat, c: nat)
    requires slots > 0
  {
    k < |ops| && Enabled(Before(slots, ops, k), ops[k]) && Hits(Before(slots, ops, k), ops[k], c)
  }

  ghost predicate ReapedAt(slots: nat, ops: seq<Op>, k: nat, c: nat)
    requires slots > 0
  {
    k < |ops| && Enabled(Before(slots, ops, k), ops[k]) && Reaps(Before(slots, ops, k), ops[k], c)
  }

  ghost predicate GivenUpAt(slots: nat, ops: seq<Op>, k: nat, c: nat)
    requires slots > 0
  {
    k < |ops| && Enabled(Before(slots, ops, k), ops[k]) && GivesUp(Before(slots, ops, k), ops[k], c)
  }

  /** Operation k is a kill that hit slot c, and the slot was not reaped since, up to operation n. */
  ghost predicate Standing(slots: nat, ops: seq<Op>, n: nat, k: nat, c: nat)
    requires slots > 0
  {
    k < n && HitAt(slots, ops, k, c) && forall j :: k < j < n ==> !ReapedAt(slots, ops, j, c)
  }

  lemma BeforeNext(slots: nat, ops: seq<Op>, k: nat)
    requires slots > 0 && k < |ops|
    ensures var s := Before(slots, ops, k);
            Before(slots, ops, k + 1) == if Enabled(s, ops[k]) then Step(s, ops[k]) else s
    ensures Inv(Before(slots, ops, k)) && |Before(slots, ops, k).table| == slots
  {
    hide Inv, Enabled, Step;
    assert ops[..k + 1][..k] == ops[..k];
    Reachable(slots, ops[..k]);
  }

  /** In every run a slot is marked if and only if a kill hit it since it was last reaped. */
  lemma {:induction false} KilledIff(slots: nat, ops: seq<Op>, n: nat, c: nat)
    requires c < slots && n <= |ops|
    ensures |Before(slots, ops, n).table| == slots
    ensures Before(slots, ops, n).table[c].killed <==> exists k :: Standing(slots, ops, n, k, c)
  {
    hide Inv, Before, HitAt, ReapedAt;
    if n == 0 {
      NothingYet(slots, ops, c);
    } else {
      KilledIff(slots, ops, n - 1, c);
      LastOp(slots, ops, n - 1, c);
      StandingNext(slots, ops, n, c);
    }
  }

  lemma NothingYet(slots: nat, ops: seq<Op>, c: nat)
    requires c < slots
    ensures |Before(slots, ops, 0).table| == slots && !Before(slots, ops, 0).table[c].killed
  {
    assert ops[..0] == [];
  }

  /** What operation m does to the flag. */
  lemma LastOp(slots: nat, ops: seq<Op>, m: nat, c: nat)
    requires c < slots && m < |ops|
    ensures |Before(slots, ops, m).table| == |Before(slots, ops, m + 1).table| == slots
    ensures Before(slots, ops, m + 1).table[c].killed <==>
            HitAt(slots, ops, m, c) || (Before(slots, ops, m).table[c].killed && !ReapedAt(slots, ops, m, c))
  {
    hide Inv, Before, Enabled, Step, Hits, Reaps;
    BeforeNext(slots, ops, m);
    var s := Before(slots, ops, m);
    if Enabled(s, ops[m]) { FlagStep(s, ops[m], c); }
  }

  /** A kill stands if it is the last operation, or stood before and the last operation did not reap. */
  lemma StandingNext(slots: nat, ops: seq<Op>, n: nat, c: nat)
    requires c < slots && 0 < n <= |ops|
    ensures (exists k :: Standing(slots, ops, n, k, c)) <==>
            var m := n - 1;
            HitAt(slots, ops, m, c) || ((exists k :: Standing(slots, ops, m, k, c)) && !ReapedAt(slots, ops, m, c))
  {
    hide HitAt, ReapedAt;
    var m := n - 1;
    if HitAt(slots, ops, m, c) { assert Standing(slots, ops, n, m, c); }
    forall k: nat | k < m
      ensures Standing(slots, ops, n, k, c) <==> Standing(slots, ops, m, k, c) && !ReapedAt(slots, ops, m, c)
    {
    }
  }

  // ---------------------------------------------------------------- born killed

  /** A standing kill that hit the slot while it was free. */
  ghost predicate HitFree(slots: nat, ops: seq<Op>, n: nat, k: nat, c: nat)
    requires c < slots && n <= |ops|
  {
    && Standing(slots, ops, n, k, c) && c < |Before(slots, ops, k).table|
    && Before(slots, ops, k).table[c].state == UNUSED
  }

  /** A standing kill that hit an unfinished fork that was given up later. */
  ghost predicate HitGivenUp(slots: nat, ops: seq<Op>, n: nat, k: nat, c: nat)
    requires c < slots && n <= |ops|
  {
    && Standing(slots, ops, n, k, c) && c < |Before(slots, ops, k).table|
    && Before(slots, ops, k).table[c].state == EMBRYO
    && exists j :: k < j < n && GivenUpAt(slots, ops, j, c)
  }

  /** A standing kill that hit the process now in the slot. */
  ghost predicate HitOwn(slots: nat, ops: seq<Op>, n: nat, k: nat, c: nat)
    requires c < slots && n <= |ops|
  {
    && Standing(slots, ops, n, k, c) && c < |Before(slots, ops, k).table| && c < |Before(slots, ops, n).table|
    && Before(slots, ops, k).table[c].state != UNUSED
    && Before(slots, ops, k).table[c].pid == Before(slots, ops, n).table[c].pid
  }

  /** A process that is neither reaped nor given up keeps its slot and pid. */
  lemma {:induction false} KeepsSlot(slots: nat, ops: seq<Op>, k: nat, n: nat, c: nat)
    requires c < slots && k <= n <= |ops|
    requires |Before(slots, ops, k).table| == slots && Before(slots, ops, k).table[c].state != UNUSED
    requires forall j :: k <= j < n ==> !ReapedAt(slots, ops, j, c)
    requires forall j :: k <= j < n ==> !GivenUpAt(slots, ops, j, c)
    ensures |Before(slots, ops, n).table| == slots && Before(slots, ops, n).table[c].state != UNUSED
    ensures Before(slots, ops, n).table[c].pid == Before(slots, ops, k).table[c].pid
  {
    hide Inv, Before, Enabled, Step, Reaps, GivesUp, Formed;
    if k < n {
      KeepsSlot(slots, ops, k, n - 1, c);
      var s := Before(slots, ops, n - 1);
      BeforeNext(slots, ops, n - 1);
      assert !ReapedAt(slots, ops, n - 1, c) && !GivenUpAt(slots, ops, n - 1, c);
      if Enabled(s, ops[n - 1]) { TenantStep(s, ops[n - 1], c); }
    }
  }

  /** The slot of a released process is not given up before it is reaped. */
  lemma {:induction false} StaysFormed(slots: nat, ops: seq<Op>, k: nat, n: nat, c: nat)
    requires c < slots && k <= n <= |ops|
    requires |Before(slots, ops, k).table| == slots && Formed(Before(slots, ops, k).table[c])
    requires forall j :: k <= j < n ==> !ReapedAt(slots, ops, j, c)
    ensures |Before(slots, ops, n).table| == slots && Formed(Before(slots, ops, n).table[c])
    ensures forall j :: k <= j < n ==> !GivenUpAt(slots, ops, j, c)
  {
    hide Inv, Before, Enabled, Step, Reaps, GivesUp;
    if k < n {
      StaysFormed(slots, ops, k, n - 1, c);
      var s := Before(slots, ops, n - 1);
      BeforeNext(slots, ops, n - 1);
      assert !ReapedAt(slots, ops, n - 1, c);
      if Enabled(s, ops[n - 1]) { TenantStep(s, ops[n - 1], c); }
    }
  }

  /** A standing kill is of one of the three kinds. */
  lemma StandingKinds(slots: nat, ops: seq<Op>, n: nat, k: nat, c: nat)
    requires c < slots && n <= |ops| && Standing(slots, ops, n, k, c)
    ensures HitFree(slots, ops, n, k, c) || HitGivenUp(slots, ops, n, k, c) || HitOwn(slots, ops, n, k, c)
  {
    hide Inv, Before, Enabled, Step;
    BeforeNext(slots, ops, k);
    KillReapsNothing(slots, ops, k, c);
    var p := Before(slots, ops, k).table[c];
    if p.state != UNUSED {
      if exists j :: k < j < n && GivenUpAt(slots, ops, j, c) {
        if p.state != EMBRYO { StaysFormed(slots, ops, k, n, c); }
      } else {
        KeepsSlot(slots, ops, k, n, c);
      }
    }
  }

  lemma KillReapsNothing(slots: nat, ops: seq<Op>, k: nat, c: nat)
    requires c < slots && HitAt(slots, ops, k, c)
    ensures !ReapedAt(slots, ops, k, c) && !GivenUpAt(slots, ops, k, c)
  {
  }

  /**
   In every run a process is killed if and only if, since its slot was last reaped, a kill hit the slot while it
   was free, or an unfinished fork in it that was given up, or the process itself.
   */
  lemma KilledExactlyIf(slots: nat, ops: seq<Op>, c: nat)
    requires c < slots
    ensures var p := After(slots, ops).table;
            var n := |ops|;
            |p| == slots && (p[c].killed <==>
              exists k ::
                HitFree(slots, ops, n, k, c) || HitGivenUp(slots, ops, n, k, c) || HitOwn(slots, ops, n, k, c))
  {
    hide After, HitFree, HitGivenUp, HitOwn, Standing;
    var n := |ops|;
    assert ops[..n] == ops;
    KilledIff(slots, ops, n, c);
    if k: nat :| Standing(slots, ops, n, k, c) { StandingKinds(slots, ops, n, k, c); }
    forall k: nat | HitFree(slots, ops, n, k, c) || HitGivenUp(slots, ops, n, k, c) || HitOwn(slots, ops, n, k, c)
      ensures Standing(slots, ops, n, k, c)
    {
      KindsStand(slots, ops, n, k, c);
    }
  }

  lemma KindsStand(slots: nat, ops: seq<Op>, n: nat, k: nat, c: nat)
    requires c < slots && n <= |ops|
    requires HitFree(slots, ops, n, k, c) || HitGivenUp(slots, ops, n, k, c) || HitOwn(slots, ops, n, k, c)
    ensures Standing(slots, ops, n, k, c)
  {
  }

  /** A process nobody killed is born killed exactly if its slot was hit while free, or in a fork given up before. */
  lemma BornKilledIff(slots: nat, ops: seq<Op>, c: nat)
    requires c < slots && !exists k :: HitOwn(slots, ops, |ops|, k, c)
    ensures var t := After(slots, ops).table;
            |t| == slots && (t[c].killed <==>
              exists k :: HitFree(slots, ops, |ops|, k, c) || HitGivenUp(slots, ops, |ops|, k, c))
  {
    hide After, HitFree, HitGivenUp, HitOwn;
    KilledExactlyIf(slots, ops, c);
  }

  // ---------------------------------------------------------------- two runs in which a process is born killed

  lemma AfterNone(slots: nat)
    requires slots > 0
    ensures After(slots, []) == Boot(slots)
  {
  }

  lemma RunOne(slots: nat, ops: seq<Op>, op: Op) returns (ops': seq<Op>, s: Sys)
    requires slots > 0 && Enabled(After(slots, ops), op)
    ensures ops' == ops + [op] && s == After(slots, ops') == Step(After(slots, ops), op)
  {
    ops' := ops + [op];
    assert ops'[..|ops|] == ops;
    s := After(slots, ops');
  }

  const INITPROC := Proc(RUNNING, 1, None, None, false, 1)

  const KILL_ZERO: seq<Op> := [Dispatch(0), Kill(0, 0), Alloc(0)]

  /** initproc kills pid 0, which is the free slot 1, and forks into it. */
  lemma MarkedThenAllocated()
    ensures After(2, KILL_ZERO) == Sys([INITPROC, Proc(EMBRYO, 2, None, None, true, 1)], 3, [Allocated(1), Idle])
  {
    hide After, First;
    var s0 := Sys([Proc(RUNNABLE, 1, None, None, false, 1), FREE], 2, [Idle, Idle]);
    assert After(2, []) == Boot(2) == s0 by { AfterNone(2); assert Boot(2) == s0; }
    var o1, s1 := RunOne(2, [], Dispatch(0));
    FirstHit(s1.table, HasPid(0), 1);
    var o2, s2 := RunOne(2, o1, Kill(0, 0));
    FirstHit(s2.table, Unused, 1);
    var o3, s3 := RunOne(2, o2, Alloc(0));
    assert o3 == KILL_ZERO;
  }

  /** The child is born killed although only pid 0 was killed. */
  lemma BornKilled()
    ensures var t := After(2, KILL_ZERO + [GetStack(0), Copy(0), Release(0)]).table;
            |t| == 2 && t[1].state == RUNNABLE && t[1].pid == 2 && t[1].killed
  {
    hide After, First;
    MarkedThenAllocated();
    var o4, s4 := RunOne(2, KILL_ZERO, GetStack(0));
    var o5, s5 := RunOne(2, o4, Copy(0));
    var o6, s6 := RunOne(2, o5, Release(0));
    assert o6 == KILL_ZERO + [GetStack(0), Copy(0), Release(0)];
  }

  const FORK_ONCE: seq<Op> := [Dispatch(0), Alloc(0), GetStack(0), Copy(0), Release(0)]

  const CHILD := Proc(RUNNABLE, 2, Some(0), None, false, 1)

  lemma ForkedOnce()
    ensures After(3, FORK_ONCE) == Sys([INITPROC, CHILD, FREE], 3, [Idle, Idle, Idle])
  {
    hide After, First;
    var s0 := Sys([Proc(RUNNABLE, 1, None, None, false, 1), FREE, FREE], 2, [Idle, Idle, Idle]);
    assert After(3, []) == Boot(3) == s0 by { AfterNone(3); assert Boot(3) == s0; }
    var o1, s1 := RunOne(3, [], Dispatch(0));
    FirstHit(s1.table, Unused, 1);
    var o2, s2 := RunOne(3, o1, Alloc(0));
    var o3, s3 := RunOne(3, o2, GetStack(0));
    var o4, s4 := RunOne(3, o3, Copy(0));
    var o5, s5 := RunOne(3, o4, Release(0));
    assert o5 == FORK_ONCE;
  }

  const KILL_EMBRYO: seq<Op> := [Dispatch(1), Alloc(0), Kill(1, 3), GiveUp(0)]

  /** The child kills its parent's second fork, which then runs out of memory: the free slot stays marked. */
  lemma EmbryoKilled()
    ensures After(3, FORK_ONCE + KILL_EMBRYO) ==
            Sys([INITPROC, CHILD.(state := RUNNING), Proc(UNUSED, 3, None, None, true, 1)], 4, [Idle, Idle, Idle])
  {
    hide After, First;
    ForkedOnce();
    var o1, s1 := RunOne(3, FORK_ONCE, Dispatch(1));
    FirstHit(s1.table, Unused, 2);
    var o2, s2 := RunOne(3, o1, Alloc(0));
    FirstHit(s2.table, HasPid(3), 2);
    var o3, s3 := RunOne(3, o2, Kill(1, 3));
    var o4, s4 := RunOne(3, o3, GiveUp(0));
    assert o4 == FORK_ONCE + KILL_EMBRYO;
  }

  /** The next fork is born killed although only pid 3 was killed. */
  lemma BornKilledAfterGiveUp()
    ensures var t := After(3, FORK_ONCE + KILL_EMBRYO + [Alloc(0), GetStack(0), Copy(0), Release(0)]).table;
            |t| == 3 && t[2].state == RUNNABLE && t[2].pid == 4 && t[2].killed
  {
    hide After, First;
    EmbryoKilled();
    FirstHit(After(3, FORK_ONCE + KILL_EMBRYO).table, Unused, 2);
    var o1, s1 := RunOne(3, FORK_ONCE + KILL_EMBRYO, Alloc(0));
    var o2, s2 := RunOne(3, o1, GetStack(0));
    var o3, s3 := RunOne(3, o2, Copy(0));
    var o4, s4 := RunOne(3, o3, Release(0));
    assert o4 == FORK_ONCE + KILL_EMBRYO + [Alloc(0), GetStack(0), Copy(0), Release(0)];
  }
}

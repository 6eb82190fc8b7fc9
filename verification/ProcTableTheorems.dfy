/** The invariant of the process table, and what holds in every run. */
module ProcTableTheorems {
  import opened Wrappers
  import opened ProcTypes
  import opened ProcTable

  // ---------------------------------------------------------------- the invariant

  predicate Active(p: Proc) { p.state == SLEEPING || p.state == RUNNABLE || p.state == RUNNING }

  predicate AsleepInWait(p: Proc) { p.state == SLEEPING && p.chan.Some? && p.chan.value.OnProc? }

  predicate Forking(at: At) { at.Allocated? || at.Stacked? || at.Copied? }

  /** A pid that was issued; a slot that is not in use may still carry its last one. */
  predicate PidOk(s: Sys, i: nat)
    requires i < |s.table|
  {
    0 <= s.table[i].pid < s.nextpid && (s.table[i].state != UNUSED ==> s.table[i].pid >= 1)
  }

  predicate PidsDiffer(s: Sys, i: nat, j: nat)
    requires i < |s.table| && j < |s.table|
  {
    i != j && s.table[i].pid == s.table[j].pid ==> s.table[i].pid == 0
  }

  ghost predicate Pids(s: Sys) {
    && (forall i :: 0 <= i < |s.table| ==> PidOk(s, i))
    && (forall i, j :: 0 <= i < |s.table| && 0 <= j < |s.table| ==> PidsDiffer(s, i, j))
  }

  /** Everybody but initproc that has been forked has an active, older parent. */
  predicate ParentOk(table: seq<Proc>, i: nat)
    requires i < |table|
  {
    var p := table[i];
    && (p.parent.Some? ==>
          var q := p.parent.value; q < |table| && Active(table[q]) && table[q].pid < p.pid)
    && (p.state == UNUSED ==> p.parent == None)
    && (i != INIT && (Active(p) || p.state == ZOMBIE) ==> p.parent.Some?)
  }

  ghost predicate Parents(s: Sys) {
    && INIT < |s.table| && Active(s.table[INIT]) && s.table[INIT].parent == None && s.table[INIT].pid == 1
    && (forall i :: 0 <= i < |s.table| ==> ParentOk(s.table, i))
  }

  /** A process inside fork or wait is active; inside fork it builds an EMBRYO. */
  predicate ForkOk(s: Sys, f: nat)
    requires f < |s.at| == |s.table|
  {
    && (s.at[f] != Idle ==> Active(s.table[f]))
    && (Forking(s.at[f]) ==>
          && s.at[f].child < |s.table| && s.table[s.at[f].child].state == EMBRYO
          && s.table[f].pid < s.table[s.at[f].child].pid
          && s.table[s.at[f].child].parent == if s.at[f].Copied? then Some(f) else None)
  }

  predicate ForksDiffer(s: Sys, f: nat, g: nat)
    requires f < |s.at| && g < |s.at|
  {
    f != g && Forking(s.at[f]) && Forking(s.at[g]) ==> s.at[f].child != s.at[g].child
  }

  predicate EmbryoOk(s: Sys, c: nat)
    requires c < |s.table|
  {
    s.table[c].state == EMBRYO && s.table[c].parent.Some? ==>
      s.table[c].parent.value < |s.at| && s.at[s.table[c].parent.value] == Copied(c)
  }

  ghost predicate Forks(s: Sys) {
    && |s.at| == |s.table|
    && (forall f :: 0 <= f < |s.at| ==> ForkOk(s, f))
    && (forall f, g :: 0 <= f < |s.at| && 0 <= g < |s.at| ==> ForksDiffer(s, f, g))
    && (forall c :: 0 <= c < |s.table| ==> EmbryoOk(s, c))
  }

  /** Whoever sleeps in wait sleeps on itself, was not killed, and has a child. */
  predicate SleepOk(p: Proc, table: seq<Proc>, i: nat) {
    && (p.state == SLEEPING ==> p.chan.Some?)
    && (AsleepInWait(p) ==> p.chan == Some(OnProc(i)) && !p.killed && HasKids(table, i))
  }

  /** No lost wakeup: nobody sleeps in wait beside a dead child. */
  predicate NoneMissed(p: Proc, i: nat, kid: Proc) {
    AsleepInWait(p) && kid.parent == Some(i) ==> kid.state != ZOMBIE
  }

  ghost predicate Waits(table: seq<Proc>) {
    && (forall i :: 0 <= i < |table| ==> SleepOk(table[i], table, i))
    && (forall i, c :: 0 <= i < |table| && 0 <= c < |table| ==> NoneMissed(table[i], i, table[c]))
  }

  ghost predicate Inv(s: Sys) {
    Pids(s) && Parents(s) && Forks(s) && Waits(s.table)
  }

  // ---------------------------------------------------------------- every step keeps it

  /** Nothing but activity, channel, killed flag and tickets differs. */
  predicate Milder(p: Proc, p': Proc) {
    p'.pid == p.pid && p'.parent == p.parent && Active(p') == Active(p) && (!Active(p) ==> p'.state == p.state)
  }

  /** Nobody falls asleep in wait, or without a channel. */
  predicate Wakeful(p: Proc, p': Proc) {
    && (p'.state == SLEEPING ==> p'.chan.Some?)
    && (AsleepInWait(p') ==> AsleepInWait(p) && p'.chan == p.chan && p'.killed == p.killed)
  }

  ghost predicate MilderTable(table: seq<Proc>, table': seq<Proc>) {
    |table'| == |table| && forall i :: 0 <= i < |table| ==> Milder(table[i], table'[i])
  }

  lemma MilderPids(s: Sys, table': seq<Proc>)
    requires Pids(s) && MilderTable(s.table, table')
    ensures Pids(s.(table := table'))
  {
    var s' := s.(table := table');
    forall i | 0 <= i < |table'| ensures PidOk(s', i) { assert PidOk(s, i); }
    forall i, j | 0 <= i < |table'| && 0 <= j < |table'| ensures PidsDiffer(s', i, j) { assert PidsDiffer(s, i, j); }
  }

  lemma MilderParents(s: Sys, table': seq<Proc>)
    requires Parents(s) && MilderTable(s.table, table')
    ensures Parents(s.(table := table'))
  {
    forall i | 0 <= i < |table'| ensures ParentOk(table', i) { assert ParentOk(s.table, i); }
  }

  lemma MilderForks(s: Sys, table': seq<Proc>)
    requires Forks(s) && MilderTable(s.table, table')
    ensures Forks(s.(table := table'))
  {
    var s' := s.(table := table');
    forall i | 0 <= i < |table'| ensures ForkOk(s', i) { assert ForkOk(s, i); }
    forall i, j | 0 <= i < |table'| && 0 <= j < |table'| ensures ForksDiffer(s', i, j) { assert ForksDiffer(s, i, j); }
    forall i | 0 <= i < |table'| ensures EmbryoOk(s', i) { assert EmbryoOk(s, i); }
  }

  /** Milder changes put nobody to sleep in wait. */
  lemma MilderWaits(table: seq<Proc>, table': seq<Proc>)
    requires Waits(table) && MilderTable(table, table')
    requires forall i :: 0 <= i < |table| ==> Wakeful(table[i], table'[i])
    ensures Waits(table')
  {
    forall i | 0 <= i < |table'| ensures SleepOk(table'[i], table', i) {
      assert SleepOk(table[i], table, i);
      KidsKept(table, table', i);
    }
    forall i, c | 0 <= i < |table'| && 0 <= c < |table'| ensures NoneMissed(table'[i], i, table'[c]) {
      assert NoneMissed(table[i], i, table[c]);
    }
  }

  lemma KidsKept(table: seq<Proc>, table': seq<Proc>, i: nat)
    requires |table'| == |table|
    requires forall c :: 0 <= c < |table| && table[c].parent == Some(i) ==> table'[c].parent == Some(i)
    ensures HasKids(table, i) ==> HasKids(table', i)
  {
    if HasKids(table, i) {
      var c :| 0 <= c < |table| && table[c].parent == Some(i);
      assert table'[c].parent == Some(i);
    }
  }

  lemma MilderKept(s: Sys, table': seq<Proc>)
    requires Inv(s) && MilderTable(s.table, table')
    requires forall i :: 0 <= i < |s.table| ==> Wakeful(s.table[i], table'[i])
    ensures Inv(s.(table := table'))
  {
    hide Pids, Parents, Forks, Waits, MilderTable;
    MilderPids(s, table');
    MilderParents(s, table');
    MilderForks(s, table');
    MilderWaits(s.table, table');
  }

  /** sleep on an object, wakeup, kill, settickets, dispatch and yield. */
  lemma MildStepKept(s: Sys, op: Op)
    requires Inv(s) && Enabled(s, op)
    requires (op.Sleep? || op.Yield? || op.Dispatch? || op.SetTickets? || op.Kill? || op.Wakeup?)
    ensures Inv(Step(s, op))
  {
    hide First, Pids, Parents, Forks, HasKids;
    var table' := Step(s, op).table;
    forall i | 0 <= i < |s.table|
      ensures Milder(s.table[i], table'[i])
      ensures Wakeful(s.table[i], table'[i])
    {
      assert SleepOk(s.table[i], s.table, i);
    }
    MilderKept(s, table');
  }

  // ---------------------------------------------------------------- fork

  lemma AllocKept(s: Sys, p: nat, c: nat)
    requires Inv(s) && Enabled(s, Alloc(p)) && First(s.table, Unused) == Some(c)
    ensures Inv(Step(s, Alloc(p)))
  {
    hide First, Pids, Parents, Forks, Waits;
    var s' := Step(s, Alloc(p));
    AllocParents(s, c, s'.table[c], s'.at);
    AllocPids(s, c, s'.table[c], s'.at);
    IssuedPid(s, p);
    AllocForks(s, p, c, s'.table[c]);
    SlotWaits(s.table, c, s'.table[c]);
  }

  lemma AllocPids(s: Sys, c: nat, x: Proc, at: seq<At>)
    requires Pids(s) && c < |s.table| && x.pid == s.nextpid && s.nextpid >= 1
    ensures Pids(Sys(s.table[c := x], s.nextpid + 1, at))
  {
    var s' := Sys(s.table[c := x], s.nextpid + 1, at);
    forall i | 0 <= i < |s'.table| ensures PidOk(s', i) { assert PidOk(s, i); }
    forall i, j | 0 <= i < |s'.table| && 0 <= j < |s'.table| ensures PidsDiffer(s', i, j) {
      assert PidOk(s, i) && PidOk(s, j) && PidsDiffer(s, i, j);
    }
  }

  lemma AllocParents(s: Sys, c: nat, x: Proc, at: seq<At>)
    requires Parents(s) && Pids(s) && c < |s.table| && s.table[c].state == UNUSED
    requires x.state == EMBRYO && x.parent == s.table[c].parent
    ensures s.nextpid >= 1 && Parents(Sys(s.table[c := x], s.nextpid + 1, at))
  {
    var t := s.table[c := x];
    assert PidOk(s, INIT);
    forall i | 0 <= i < |t| ensures ParentOk(t, i) {
      assert ParentOk(s.table, i) && ParentOk(s.table, c);
    }
  }

  lemma AllocForks(s: Sys, p: nat, c: nat, x: Proc)
    requires Forks(s) && Parents(s) && p < |s.at| && Active(s.table[p]) && s.at[p] == Idle
    requires c < |s.table| && s.table[c].state == UNUSED
    requires x.state == EMBRYO && x.parent == s.table[c].parent && x.pid > s.table[p].pid
    ensures Forks(Sys(s.table[c := x], s.nextpid + 1, s.at[p := Allocated(c)]))
  {
    hide Parents;
    var s' := Sys(s.table[c := x], s.nextpid + 1, s.at[p := Allocated(c)]);
    UnusedHasNoParent(s, c);
    forall f | 0 <= f < |s'.at| ensures ForkOk(s', f) { assert ForkOk(s, f) && ForkOk(s, c); }
    forall f, g | 0 <= f < |s'.at| && 0 <= g < |s'.at| ensures ForksDiffer(s', f, g) {
      assert ForksDiffer(s, f, g) && ForkOk(s, f) && ForkOk(s, g);
    }
    forall i | 0 <= i < |s'.table| ensures EmbryoOk(s', i) { assert EmbryoOk(s, i); }
  }

  lemma IssuedPid(s: Sys, p: nat)
    requires Pids(s) && p < |s.table|
    ensures s.table[p].pid < s.nextpid
  {
    assert PidOk(s, p);
  }

  lemma UnusedHasNoParent(s: Sys, c: nat)
    requires Parents(s) && c < |s.table| && s.table[c].state == UNUSED
    ensures s.table[c].parent == None
  {
    assert ParentOk(s.table, c);
  }

  /** A slot that neither dies nor falls asleep nor loses its parent disturbs no waiter. */
  lemma SlotWaits(table: seq<Proc>, c: nat, x: Proc)
    requires Waits(table) && c < |table| && x.state != ZOMBIE && x.state != SLEEPING
    requires table[c].parent == x.parent || table[c].parent == None
    ensures Waits(table[c := x])
  {
    var t := table[c := x];
    forall i | 0 <= i < |t| ensures SleepOk(t[i], t, i) {
      assert SleepOk(table[i], table, i);
      KidsKept(table, t, i);
    }
    forall i, k | 0 <= i < |t| && 0 <= k < |t| ensures NoneMissed(t[i], i, t[k]) {
      assert NoneMissed(table[i], i, table[k]);
    }
  }

  /** The steps of fork after the allocation change the child's slot and the parent's place. */
  lemma ForkStepKept(s: Sys, op: Op)
    requires Inv(s) && Enabled(s, op) && (op.GiveUp? || op.GetStack? || op.Copy? || op.Release?)
    ensures Inv(Step(s, op))
  {
    hide Pids, Parents, Forks, Waits;
    var p := op.p;
    var c := s.at[p].child;
    BuiltChild(s, p);
    var s' := Step(s, op);
    var x := s'.table[c];
    assert s'.table == s.table[c := x];
    ForkPids(s, c, x, s'.at);
    ForkParents(s, p, c, x, s'.at);
    ForkForks(s, p, c, x, s'.at[p]);
    SlotWaits(s.table, c, x);
  }

  lemma BuiltChild(s: Sys, p: nat)
    requires Inv(s) && p < |s.at| && Forking(s.at[p])
    ensures var c := s.at[p].child;
            && c < |s.table| && s.table[c].state == EMBRYO && Active(s.table[p]) && s.table[p].pid < s.table[c].pid
            && s.table[c].parent == if s.at[p].Copied? then Some(p) else None
  {
    assert ForkOk(s, p);
  }

  lemma ForkPids(s: Sys, c: nat, x: Proc, at: seq<At>)
    requires Pids(s) && c < |s.table| && s.table[c].state == EMBRYO && x.pid == s.table[c].pid
    ensures Pids(Sys(s.table[c := x], s.nextpid, at))
  {
    var s' := Sys(s.table[c := x], s.nextpid, at);
    forall i | 0 <= i < |s'.table| ensures PidOk(s', i) { assert PidOk(s, i); }
    forall i, j | 0 <= i < |s'.table| && 0 <= j < |s'.table|
      ensures PidsDiffer(s', i, j)
    {
      assert PidsDiffer(s, i, j);
    }
  }

  lemma ForkParents(s: Sys, p: nat, c: nat, x: Proc, at: seq<At>)
    requires Parents(s) && c < |s.table| && s.table[c].state == EMBRYO && x.pid == s.table[c].pid && x.state != ZOMBIE
    requires p < |s.table| && Active(s.table[p]) && s.table[p].pid < x.pid
    requires x.parent == None || x.parent == Some(p)
    requires x.state == UNUSED ==> x.parent == None
    requires Active(x) ==> x.parent == Some(p)
    ensures Parents(Sys(s.table[c := x], s.nextpid, at))
  {
    var t := s.table[c := x];
    forall i | 0 <= i < |t| ensures ParentOk(t, i) { assert ParentOk(s.table, i); }
  }

  lemma ForkForks(s: Sys, p: nat, c: nat, x: Proc, at: At)
    requires Forks(s) && p < |s.at| && Forking(s.at[p]) && s.at[p].child == c < |s.table|
    requires x.pid == s.table[c].pid
    requires if at == Idle then x.state != EMBRYO
             else Forking(at) && at.child == c && x.state == EMBRYO && x.parent == if at.Copied? then Some(p) else None
    ensures Forks(Sys(s.table[c := x], s.nextpid, s.at[p := at]))
  {
    var s' := Sys(s.table[c := x], s.nextpid, s.at[p := at]);
    forall f | 0 <= f < |s'.at| ensures ForkOk(s', f) { assert ForkOk(s, f) && ForkOk(s, p) && ForksDiffer(s, f, p); }
    forall f, g | 0 <= f < |s'.at| && 0 <= g < |s'.at| ensures ForksDiffer(s', f, g) {
      assert ForksDiffer(s, f, g);
    }
    forall i | 0 <= i < |s'.table| ensures EmbryoOk(s', i) { assert EmbryoOk(s, i); }
  }

  // ---------------------------------------------------------------- wait

  /** Entering or leaving wait. */
  lemma AtKept(s: Sys, p: nat, at: At)
    requires Inv(s) && p < |s.at| && Active(s.table[p]) && !Forking(s.at[p]) && !Forking(at)
    ensures Inv(s.(at := s.at[p := at]))
  {
    hide Waits, Parents;
    var s' := s.(at := s.at[p := at]);
    ParentsIgnoreAt(s, s'.at);
    forall i | 0 <= i < |s.table| ensures PidOk(s', i) { assert PidOk(s, i); }
    forall i, j | 0 <= i < |s.table| && 0 <= j < |s.table| ensures PidsDiffer(s', i, j) { assert PidsDiffer(s, i, j); }
    forall f | 0 <= f < |s'.at| ensures ForkOk(s', f) { assert ForkOk(s, f); }
    forall f, g | 0 <= f < |s'.at| && 0 <= g < |s'.at| ensures ForksDiffer(s', f, g) { assert ForksDiffer(s, f, g); }
    forall i | 0 <= i < |s'.table| ensures EmbryoOk(s', i) { assert EmbryoOk(s, i); }
  }

  lemma ParentsIgnoreAt(s: Sys, at: seq<At>)
    requires Parents(s)
    ensures Parents(s.(at := at))
  {
  }

  /** Reaping frees a dead child of an active process that is not asleep. */
  lemma ReapKept(s: Sys, p: nat, z: nat)
    requires Inv(s) && p < |s.table| && s.table[p].state == RUNNING
    requires z < |s.table| && s.table[z].state == ZOMBIE && s.table[z].parent == Some(p)
    ensures Inv(s.(table := s.table[z := s.table[z].(pid := 0, parent := None, killed := false, state := UNUSED)]))
  {
    hide Pids, Parents, Forks, Waits;
    var x := s.table[z].(pid := 0, parent := None, killed := false, state := UNUSED);
    ReapPids(s, z, x);
    ReapParents(s, z, x);
    ReapForks(s, z, x);
    ReapWaits(s.table, p, z, x);
  }

  lemma ReapPids(s: Sys, z: nat, x: Proc)
    requires Pids(s) && Parents(s) && z < |s.table| && x.pid == 0 && x.state == UNUSED
    ensures Pids(s.(table := s.table[z := x]))
  {
    hide ParentOk;
    var s' := s.(table := s.table[z := x]);
    assert PidOk(s, INIT);
    forall i | 0 <= i < |s'.table| ensures PidOk(s', i) { assert PidOk(s, i); }
    forall i, j | 0 <= i < |s'.table| && 0 <= j < |s'.table|
      ensures PidsDiffer(s', i, j)
    {
      assert PidsDiffer(s, i, j);
    }
  }

  lemma ReapParents(s: Sys, z: nat, x: Proc)
    requires Parents(s) && z < |s.table| && s.table[z].state == ZOMBIE && x.state == UNUSED && x.parent == None
    ensures Parents(s.(table := s.table[z := x]))
  {
    var t := s.table[z := x];
    forall i | 0 <= i < |t| ensures ParentOk(t, i) { assert ParentOk(s.table, i); }
  }

  lemma ReapForks(s: Sys, z: nat, x: Proc)
    requires Forks(s) && z < |s.table| && s.table[z].state == ZOMBIE && x.state == UNUSED
    ensures Forks(s.(table := s.table[z := x]))
  {
    var s' := s.(table := s.table[z := x]);
    forall f | 0 <= f < |s'.at| ensures ForkOk(s', f) { assert ForkOk(s, f); }
    forall f, g | 0 <= f < |s'.at| && 0 <= g < |s'.at| ensures ForksDiffer(s', f, g) { assert ForksDiffer(s, f, g); }
    forall i | 0 <= i < |s'.table| ensures EmbryoOk(s', i) { assert EmbryoOk(s, i); }
  }

  lemma ReapWaits(table: seq<Proc>, p: nat, z: nat, x: Proc)
    requires Waits(table) && z < |table| && x.state == UNUSED && table[z].parent == Some(p)
    requires p < |table| && table[p].state == RUNNING
    ensures Waits(table[z := x])
  {
    var t := table[z := x];
    forall i | 0 <= i < |t| ensures SleepOk(t[i], t, i) {
      assert SleepOk(table[i], table, i);
      if i != p { KidsKept(table, t, i); }
    }
    forall i, c | 0 <= i < |t| && 0 <= c < |t|
      ensures NoneMissed(t[i], i, t[c])
    {
      assert NoneMissed(table[i], i, table[c]);
    }
  }

  /** Falling asleep in wait: there is a child, none is dead, and the process was not killed. */
  lemma DozeKept(s: Sys, p: nat)
    requires Inv(s) && p < |s.table| && s.table[p].state == RUNNING && HasKids(s.table, p) && !s.table[p].killed
    requires forall c :: 0 <= c < |s.table| ==> !(s.table[c].parent == Some(p) && s.table[c].state == ZOMBIE)
    ensures Inv(s.(table := s.table[p := s.table[p].(chan := Some(OnProc(p)), state := SLEEPING)]))
  {
    hide Pids, Parents, Forks;
    var t := s.table[p := s.table[p].(chan := Some(OnProc(p)), state := SLEEPING)];
    MilderPids(s, t);
    MilderParents(s, t);
    MilderForks(s, t);
    forall i | 0 <= i < |t| ensures SleepOk(t[i], t, i) {
      assert SleepOk(s.table[i], s.table, i);
      KidsKept(s.table, t, i);
    }
    forall i, c | 0 <= i < |t| && 0 <= c < |t|
      ensures NoneMissed(t[i], i, t[c])
    {
      assert NoneMissed(s.table[i], i, s.table[c]);
    }
  }

  lemma WaitKept(s: Sys, p: nat)
    requires Inv(s) && Enabled(s, Wait(p))
    ensures Inv(Step(s, Wait(p)))
  {
    hide First, Pids, Parents, Forks, Waits, HasKids;
    var (t, r) := WaitOnce(s.table, p);
    match First(s.table, DeadChildOf(p)) {
      case Some(z) => ReapKept(s, p, z);
      case None =>
        assert forall c :: 0 <= c < |s.table| ==> !DeadChildOf(p)(s.table[c]);
        if r == Asleep { DozeKept(s, p); }
    }
    AtKept(s.(table := t), p, if r == Asleep then InWait else Idle);
  }

  // ---------------------------------------------------------------- exit

  /** exit wakes its parent, and initproc if it inherits a dead child; only then are children moved. */
  lemma ExitKept(s: Sys, p: nat)
    requires Inv(s) && Enabled(s, Exit(p))
    ensures Inv(Step(s, Exit(p)))
  {
    hide Pids, Parents, Forks, Waits;
    var chan := ChanOf(s.table[p].parent);
    var t1 := Woken(s.table, chan);
    WokenKept(s, chan);
    var s1 := s.(table := t1);
    var s2 := if HasDeadKid(t1, p) then s1.(table := Woken(t1, ChanOf(Some(INIT)))) else s1;
    if HasDeadKid(t1, p) { WokenKept(s1, ChanOf(Some(INIT))); }
    ExitTable(s.table, p);
    ExitWoke(s, p);
    LeaveKept(s2, p);
  }

  lemma WokenKept(s: Sys, chan: Option<Chan>)
    requires Inv(s)
    ensures Inv(s.(table := Woken(s.table, chan)))
  {
    hide Pids, Parents, Forks;
    var t := Woken(s.table, chan);
    forall i | 0 <= i < |t| ensures Wakeful(s.table[i], t[i]) { assert SleepOk(s.table[i], s.table, i); }
    MilderKept(s, t);
  }

  /** The table after the wakeups of exit. */
  function WokenByExit(table: seq<Proc>, p: nat): (r: seq<Proc>)
    requires p < |table|
    ensures |r| == |table|
  {
    var t := Woken(table, ChanOf(table[p].parent));
    if HasDeadKid(t, p) then Woken(t, ChanOf(Some(INIT))) else t
  }

  function Left(table: seq<Proc>, p: nat): (r: seq<Proc>)
    requires p < |table|
    ensures |r| == |table|
  {
    Adopted(table, p)[p := AdoptedProc(table[p], p).(state := ZOMBIE)]
  }

  lemma ExitTable(table: seq<Proc>, p: nat)
    requires p < |table|
    ensures Exited(table, p) == Left(WokenByExit(table, p), p)
  {
    hide HasDeadKid;
  }

  /** Neither the parent of the dying process nor an initproc that inherits a dead child stays asleep in wait. */
  lemma ExitWoke(s: Sys, p: nat)
    requires Inv(s) && Enabled(s, Exit(p))
    ensures var t := WokenByExit(s.table, p);
            && (forall q :: 0 <= q < |t| && t[p].parent == Some(q) ==> !AsleepInWait(t[q]))
            && (HasDeadKid(t, p) ==> !AsleepInWait(t[INIT]))
            && t[p] == s.table[p]
  {
    hide Pids, Forks, Parents;
    var t1 := Woken(s.table, ChanOf(s.table[p].parent));
    var t := WokenByExit(s.table, p);
    forall q | 0 <= q < |t| ensures t[p].parent == Some(q) ==> !AsleepInWait(t[q]) {
      assert SleepOk(s.table[q], s.table, q);
    }
    assert HasDeadKid(t, p) ==> HasDeadKid(t1, p);
    assert INIT < |t| by { InitInTable(s); }
    assert SleepOk(s.table[INIT], s.table, INIT);
  }

  lemma InitInTable(s: Sys)
    requires Parents(s)
    ensures INIT < |s.table|
  {
  }

  lemma LeaveKept(s: Sys, p: nat)
    requires Inv(s) && Enabled(s, Exit(p))
    requires forall q :: 0 <= q < |s.table| && s.table[p].parent == Some(q) ==> !AsleepInWait(s.table[q])
    requires INIT < |s.table| && (HasDeadKid(s.table, p) ==> !AsleepInWait(s.table[INIT]))
    ensures Inv(s.(table := Left(s.table, p)))
  {
    hide Pids, Parents, Forks, Waits, HasDeadKid;
    LeavePids(s, p);
    LeaveParents(s, p);
    LeaveForks(s, p);
    NotOwnParent(s, p);
    LeaveWaits(s, p);
  }

  lemma NotOwnParent(s: Sys, p: nat)
    requires Parents(s) && p < |s.table|
    ensures s.table[p].parent != Some(p)
  {
    assert ParentOk(s.table, p);
  }

  lemma LeavePids(s: Sys, p: nat)
    requires Pids(s) && p < |s.table| && s.table[p].state == RUNNING
    ensures Pids(s.(table := Left(s.table, p)))
  {
    var s' := s.(table := Left(s.table, p));
    forall i | 0 <= i < |s'.table| ensures PidOk(s', i) { assert PidOk(s, i); }
    forall i, j | 0 <= i < |s'.table| && 0 <= j < |s'.table|
      ensures PidsDiffer(s', i, j)
    {
      assert PidsDiffer(s, i, j);
    }
  }

  lemma LeaveParents(s: Sys, p: nat)
    requires Parents(s) && Pids(s) && p < |s.table| && s.table[p].state == RUNNING && p != INIT
    ensures Parents(s.(table := Left(s.table, p)))
  {
    hide Pids;
    var t := Left(s.table, p);
    InitIsOldest(s);
    assert ParentOk(s.table, p);
    forall i | 0 <= i < |t| ensures ParentOk(t, i) { assert ParentOk(s.table, i); }
  }

  lemma InitIsOldest(s: Sys)
    requires Parents(s) && Pids(s)
    ensures forall i :: 0 <= i < |s.table| && s.table[i].parent.Some? ==> s.table[INIT].pid < s.table[i].pid
  {
    forall i | 0 <= i < |s.table| && s.table[i].parent.Some? ensures s.table[INIT].pid < s.table[i].pid {
      assert ParentOk(s.table, i) && PidOk(s, i) && PidsDiffer(s, i, INIT);
    }
  }

  lemma LeaveForks(s: Sys, p: nat)
    requires Forks(s) && Enabled(s, Exit(p))
    ensures Forks(s.(table := Left(s.table, p)))
  {
    var s' := s.(table := Left(s.table, p));
    forall f | 0 <= f < |s'.at| ensures ForkOk(s', f) {
      assert ForkOk(s, f);
      if Forking(s.at[f]) { assert EmbryoOk(s, s.at[f].child); }
    }
    forall f, g | 0 <= f < |s'.at| && 0 <= g < |s'.at| ensures ForksDiffer(s', f, g) { assert ForksDiffer(s, f, g); }
    forall i | 0 <= i < |s'.table| ensures EmbryoOk(s', i) { assert EmbryoOk(s, i); }
  }

  lemma LeaveWaits(s: Sys, p: nat)
    requires Waits(s.table) && Enabled(s, Exit(p)) && s.table[p].parent != Some(p)
    requires forall q :: 0 <= q < |s.table| && s.table[p].parent == Some(q) ==> !AsleepInWait(s.table[q])
    requires INIT < |s.table| && (HasDeadKid(s.table, p) ==> !AsleepInWait(s.table[INIT]))
    ensures Waits(Left(s.table, p))
  {
    var table, t := s.table, Left(s.table, p);
    forall i | 0 <= i < |t| ensures SleepOk(t[i], t, i) {
      assert SleepOk(table[i], table, i);
      if i != p { KidsKept(table, t, i); }
    }
    forall i, c | 0 <= i < |t| && 0 <= c < |t|
      ensures NoneMissed(t[i], i, t[c])
    {
      assert NoneMissed(table[i], i, table[c]);
    }
  }

  // ---------------------------------------------------------------- every run

  lemma StepKept(s: Sys, op: Op)
    requires Inv(s) && Enabled(s, op)
    ensures Inv(Step(s, op))
  {
    hide Inv, Step, Enabled, First;
    match op
    case Alloc(p) => AllocOrNotKept(s, p);
    case Exit(p) => ExitKept(s, p);
    case Wait(p) => WaitKept(s, p);
    case GiveUp(_) => ForkStepKept(s, op);
    case GetStack(_) => ForkStepKept(s, op);
    case Copy(_) => ForkStepKept(s, op);
    case Release(_) => ForkStepKept(s, op);
    case _ => MildStepKept(s, op);
  }

  lemma AllocOrNotKept(s: Sys, p: nat)
    requires Inv(s) && Enabled(s, Alloc(p))
    ensures Inv(Step(s, Alloc(p)))
  {
    hide Inv, First;
    var r := First(s.table, Unused);
    if r.Some? { AllocKept(s, p, r.value); }
  }

  lemma BootInv(slots: nat)
    requires slots > 0
    ensures Inv(Boot(slots))
  {
  }

  lemma {:induction false} Reachable(slots: nat, ops: seq<Op>)
    requires slots > 0
    ensures Inv(After(slots, ops)) && |After(slots, ops).table| == slots
  {
    hide Inv, Step, Enabled;
    if ops == [] {
      BootInv(slots);
    } else {
      var s, op := After(slots, ops[..|ops| - 1]), ops[|ops| - 1];
      Reachable(slots, ops[..|ops| - 1]);
      if Enabled(s, op) {
        StepKept(s, op);
        StepSlots(s, op);
      }
    }
  }

  lemma StepSlots(s: Sys, op: Op)
    requires Enabled(s, op)
    ensures |Step(s, op).table| == |s.table|
  {
  }

  /** In every run, processes in use have distinct pids. */
  lemma DistinctPids(slots: nat, ops: seq<Op>, i: nat, j: nat)
    requires i < j < slots
    ensures var t := After(slots, ops).table;
            |t| == slots && (t[i].state != UNUSED && t[j].state != UNUSED ==> t[i].pid != t[j].pid)
  {
    hide Inv, After;
    Reachable(slots, ops);
    InvPids(After(slots, ops), i, j);
  }

  lemma InvPids(s: Sys, i: nat, j: nat)
    requires Inv(s) && i < |s.table| && j < |s.table| && i != j
    ensures s.table[i].state != UNUSED && s.table[j].state != UNUSED ==> s.table[i].pid != s.table[j].pid
  {
    assert PidOk(s, i) && PidsDiffer(s, i, j);
  }

  /** In every run a parent is never unused, embryonic or dead, and only initproc and unfinished forks have none. */
  lemma NoOrphans(slots: nat, ops: seq<Op>, i: nat)
    requires i < slots
    ensures var t := After(slots, ops).table;
            && |t| == slots
            && (t[i].parent.Some? ==> t[i].parent.value < slots && Active(t[t[i].parent.value]))
            && (i == INIT || t[i].state == UNUSED ==> t[i].parent.None?)
            && (i != INIT && t[i].state != UNUSED && t[i].state != EMBRYO ==> t[i].parent.Some?)
            && Active(t[INIT])
  {
    hide Inv, After;
    Reachable(slots, ops);
    InvParents(After(slots, ops), i);
  }

  lemma InvParents(s: Sys, i: nat)
    requires Inv(s) && i < |s.table|
    ensures var t := s.table;
            && (t[i].parent.Some? ==>
                  var q := t[i].parent.value; q < |t| && Active(t[q]) && t[q].pid < t[i].pid)
            && (i == INIT || t[i].state == UNUSED ==> t[i].parent.None?)
            && (i != INIT && t[i].state != UNUSED && t[i].state != EMBRYO ==> t[i].parent.Some?)
            && INIT < |t| && Active(t[INIT])
  {
    assert ParentOk(s.table, i);
  }

  /** In every run, whoever sleeps in wait has a child that can still die, none that already has, and was not killed. */
  lemma NoLostWakeup(slots: nat, ops: seq<Op>, i: nat)
    requires i < slots
    ensures var t := After(slots, ops).table;
            |t| == slots && (SleepsOn(t[i], Some(OnProc(i))) ==> HasKids(t, i) && !HasDeadKid(t, i) && !t[i].killed)
  {
    hide Inv, After;
    Reachable(slots, ops);
    InvWaits(After(slots, ops), i);
  }

  lemma InvWaits(s: Sys, i: nat)
    requires Inv(s) && i < |s.table|
    ensures SleepsOn(s.table[i], Some(OnProc(i))) ==>
              HasKids(s.table, i) && !HasDeadKid(s.table, i) && !s.table[i].killed
  {
    assert SleepOk(s.table[i], s.table, i);
    assert forall c :: 0 <= c < |s.table| ==> NoneMissed(s.table[i], i, s.table[c]);
  }

  /** `i` descends from initproc in at most `steps` generations. */
  predicate Descends(table: seq<Proc>, i: nat, steps: nat)
    decreases steps
  {
    && i < |table|
    && (i == INIT || (steps > 0 && table[i].parent.Some? && Descends(table, table[i].parent.value, steps - 1)))
  }

  /** In every run the parents form one tree: every forked process descends from initproc. */
  lemma OneTree(slots: nat, ops: seq<Op>, i: nat)
    requires i < slots
    ensures var t := After(slots, ops).table;
            |t| == slots && (Active(t[i]) || t[i].state == ZOMBIE ==> t[i].pid >= 0 && Descends(t, i, t[i].pid))
  {
    hide Inv, After;
    Reachable(slots, ops);
    var s := After(slots, ops);
    if Active(s.table[i]) || s.table[i].state == ZOMBIE { InvTree(s, i); }
  }

  lemma {:induction false} InvTree(s: Sys, i: nat)
    requires Inv(s) && i < |s.table| && (Active(s.table[i]) || s.table[i].state == ZOMBIE)
    ensures s.table[i].pid >= 0 && Descends(s.table, i, s.table[i].pid)
    decreases s.table[i].pid
  {
    hide Inv;
    InvPidPositive(s, i);
    if i != INIT {
      InvParents(s, i);
      var q := s.table[i].parent.value;
      InvPidPositive(s, q);
      InvTree(s, q);
      DescendsMore(s.table, q, s.table[q].pid, s.table[i].pid - 1);
    }
  }

  lemma InvPidPositive(s: Sys, i: nat)
    requires Inv(s) && i < |s.table| && s.table[i].state != UNUSED
    ensures s.table[i].pid >= 1
  {
    assert PidOk(s, i);
  }

  lemma {:induction false} DescendsMore(table: seq<Proc>, i: nat, a: nat, b: nat)
    requires Descends(table, i, a) && a <= b
    ensures Descends(table, i, b)
    decreases a
  {
    if i != INIT {
      DescendsMore(table, table[i].parent.value, a - 1, b - 1);
    }
  }

  // ---------------------------------------------------------------- kill, settickets

  /** kill with the pid of a process in use marks that process alone, and wakes it if it sleeps. */
  lemma KillHits(slots: nat, ops: seq<Op>, i: nat)
    requires i < slots
    ensures var t := After(slots, ops).table;
            && |t| == slots
            && (t[i].state != UNUSED ==>
                  var state := if t[i].state == SLEEPING then RUNNABLE else t[i].state;
                  Killed(t, t[i].pid) == t[i := t[i].(killed := true, state := state)])
  {
    hide Inv, After;
    Reachable(slots, ops);
    var s := After(slots, ops);
    if s.table[i].state != UNUSED { FirstWithPid(s, i); }
  }

  lemma FirstWithPid(s: Sys, i: nat)
    requires Inv(s) && i < |s.table| && s.table[i].state != UNUSED
    ensures First(s.table, HasPid(s.table[i].pid)) == Some(i)
  {
    hide First;
    assert PidOk(s, i);
    FirstHit(s.table, HasPid(s.table[i].pid), i);
    var r := First(s.table, HasPid(s.table[i].pid)).value;
    assert PidsDiffer(s, r, i);
  }

  /** settickets changes the tickets of the calling process alone. */
  lemma SetTicketsHits(slots: nat, ops: seq<Op>, p: nat, tickets: int)
    requires p < slots
    ensures var t := After(slots, ops).table;
            |t| == slots && (t[p].state == RUNNING ==> Ticketed(t, p, tickets) == t[p := t[p].(tickets := tickets)])
  {
    hide Inv, After;
    Reachable(slots, ops);
    var s := After(slots, ops);
    if s.table[p].state == RUNNING { FirstWithPid(s, p); }
  }

  /** In every run no process has a negative number of tickets, as the lottery requires. */
  lemma {:induction false} TicketsNotNegative(slots: nat, ops: seq<Op>)
    requires slots > 0
    ensures NoDebt(After(slots, ops).table)
  {
    if ops != [] {
      TicketsNotNegative(slots, ops[..|ops| - 1]);
      var s, op := After(slots, ops[..|ops| - 1]), ops[|ops| - 1];
      if Enabled(s, op) { DebtKept(s, op); }
    }
  }

  lemma DebtKept(s: Sys, op: Op)
    requires NoDebt(s.table) && Enabled(s, op)
    ensures NoDebt(Step(s, op).table)
  {
    hide First, HasKids, HasDeadKid;
  }
}

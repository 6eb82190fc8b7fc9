/**
 Two theorems about the simulator of 22/paging-policy.py: OPT never misses more often than
 any way of running the same cache, and LRU caches of growing size include one another.
 */
module PagingTheorems {
  import opened Paging

  // ---------------------------------------------------------------- demand paging

  /** What any replacement decision may do on a reference to `n`: load `n`, keep some of the rest. */
  ghost predicate DemandStep(size: nat, s: set<int>, n: int, s': set<int>) {
    n in s' && s' <= s + {n} && |s'| <= size
  }

  /** `hist` is the contents of a cache run over the trace by any decisions whatsoever. */
  ghost predicate DemandRun(trace: seq<int>, size: nat, hist: seq<set<int>>) {
    && |hist| == |trace| + 1
    && hist[0] == {}
    && forall i :: 0 <= i < |trace| ==> DemandStep(size, hist[i], trace[i], hist[i + 1])
  }

  ghost function Misses(trace: seq<int>, hist: seq<set<int>>, k: nat): nat
    requires k <= |trace| <= |hist|
  {
    if k == 0 then 0 else Misses(trace, hist, k - 1) + if trace[k - 1] in hist[k - 1] then 0 else 1
  }

  ghost function Pages(memory: seq<int>): set<int> {
    set p | p in memory
  }

  /** The pages of `s` that are referenced again at or before position `t`. */
  ghost function Soon(trace: seq<int>, s: set<int>, i: nat, t: nat): set<int>
    requires i <= |trace|
  {
    set p | p in s && NextRef(trace, p, i) <= t
  }

  lemma {:induction false} SubsetSize<T>(a: set<T>, b: set<T>)
    requires a <= b
    ensures |a| <= |b|
  {
    assert b == a + (b - a);
  }

  lemma {:induction false} DistinctSize(memory: seq<int>)
    requires Distinct(memory)
    ensures |Pages(memory)| == |memory|
  {
    if memory != [] {
      var last := |memory| - 1;
      DistinctSize(memory[..last]);
      assert Pages(memory) == Pages(memory[..last]) + {memory[last]};
    }
  }

  /** 1 if page `n` is needed again in (i, t], otherwise 0. */
  ghost function Again(trace: seq<int>, i: nat, t: nat): nat
    requires i < |trace|
  {
    if NextRef(trace, trace[i], i + 1) <= t then 1 else 0
  }

  /** How many pages needed by time `t` a step of any run can hold at most. */
  lemma SoonAtMost(trace: seq<int>, size: nat, s: set<int>, s': set<int>, i: nat, t: nat)
    requires i < |trace| && t >= i && DemandStep(size, s, trace[i], s')
    ensures |Soon(trace, s', i + 1, t)| <= |Soon(trace, s, i, t)| + Again(trace, i, t) - if trace[i] in s then 1 else 0
    ensures |Soon(trace, s', i + 1, t)| <= size + Again(trace, i, t) - 1
  {
    hide Soon, NextRef;
    var n := trace[i];
    var later := if Again(trace, i, t) == 1 then {n} else {};
    var before, after := Soon(trace, s, i, t), Soon(trace, s', i + 1, t);
    SoonWithin(trace, size, s, s', i, t);
    SubsetSize(after, (before - {n}) + later);
    SubsetSize(after, (s' - {n}) + later);
    WithoutOne(before, n);
    WithoutOne(s', n);
  }

  /** The pages needed by time `t` after a step were needed before it, or are the page just referenced. */
  lemma SoonWithin(trace: seq<int>, size: nat, s: set<int>, s': set<int>, i: nat, t: nat)
    requires i < |trace| && t >= i && DemandStep(size, s, trace[i], s')
    ensures var n := trace[i];
            var later := if Again(trace, i, t) == 1 then {n} else {};
            var before, after := Soon(trace, s, i, t), Soon(trace, s', i + 1, t);
            && after <= (before - {n}) + later && after <= (s' - {n}) + later
            && (n in s ==> n in before)
  {
  }

  /** Exactly which pages needed by time `t` are held after dropping the pages `gone`. */
  lemma SoonAfter(trace: seq<int>, s: set<int>, gone: set<int>, i: nat, t: nat)
    requires i < |trace| && t >= i && trace[i] !in gone
    ensures trace[i] in Soon(trace, s, i, t) <==> trace[i] in s
    ensures Soon(trace, s - gone + {trace[i]}, i + 1, t)
         == Soon(trace, s, i, t) - gone - {trace[i]} + (if Again(trace, i, t) == 1 then {trace[i]} else {})
  {
    var n := trace[i];
    forall p | p != n ensures NextRef(trace, p, i) == NextRef(trace, p, i + 1) {
    }
  }

  lemma SoonAtLeast(trace: seq<int>, s: set<int>, gone: set<int>, i: nat, t: nat)
    requires i < |trace| && t >= i && trace[i] !in gone
    ensures |Soon(trace, s - gone + {trace[i]}, i + 1, t)|
         == |Soon(trace, s, i, t) - gone| + Again(trace, i, t) - if trace[i] in s then 1 else 0
  {
    hide Soon, NextRef;
    SoonAfter(trace, s, gone, i, t);
    WithoutOne(Soon(trace, s, i, t) - gone, trace[i]);
  }

  lemma WithoutOne(s: set<int>, x: int)
    ensures |s - {x}| == |s| - if x in s then 1 else 0
  {
    if x in s {
      assert s == (s - {x}) + {x};
    } else {
      assert s == s - {x};
    }
  }

  // ---------------------------------------------------------------- the policies are demand runs

  /** What each access of any policy does to the set of resident pages. */
  lemma AccessPages(policy: Policy, trace: seq<int>, size: nat, clockbits: int, rand: nat -> Draw, i: nat, c: Cache)
    requires i < |trace| && size >= 1 && Valid(c, size)
    ensures var d := Access(policy, trace, size, clockbits, rand, i, c);
            Pages(d.memory) ==
            if trace[i] in c.memory then Pages(c.memory)
            else if |c.memory| < size then Pages(c.memory) + {trace[i]}
            else
              var victim := Victim(policy, trace, i, rand, c.memory, c.ref, c.drawn).victim;
              Pages(c.memory) - {c.memory[victim]} + {trace[i]}
  {
    hide Victim, Touch, IndexOf, Distinct, Counted;
    var n := trace[i];
    if n in c.memory {
      Replaced(c.memory, IndexOf(c.memory, n), n);
      assert forall p :: p in OnHit(policy, n, c).memory <==> p in c.memory;
    } else if |c.memory| == size {
      Replaced(c.memory, Victim(policy, trace, i, rand, c.memory, c.ref, c.drawn).victim, n);
    }
  }

  lemma AccessIsDemandStep(policy: Policy, trace: seq<int>, size: nat, clockbits: int, rand: nat -> Draw, i: nat,
                           c: Cache)
    requires i < |trace| && size >= 1 && Valid(c, size)
    ensures DemandStep(size, Pages(c.memory), trace[i],
                       Pages(Access(policy, trace, size, clockbits, rand, i, c).memory))
  {
    AccessPages(policy, trace, size, clockbits, rand, i, c);
    DistinctSize(Access(policy, trace, size, clockbits, rand, i, c).memory);
  }

  /** The contents of the cache along a policy's run. */
  ghost function History(policy: Policy, trace: seq<int>, size: nat, clockbits: int, rand: nat -> Draw): seq<set<int>>
    requires size >= 1
  {
    seq(|trace| + 1, i requires 0 <= i <= |trace| => Pages(Replay(policy, trace, size, clockbits, rand, i).memory))
  }

  lemma HistoryAt(policy: Policy, trace: seq<int>, size: nat, clockbits: int, rand: nat -> Draw, i: nat, n: int)
    requires size >= 1 && i <= |trace|
    ensures var hist := History(policy, trace, size, clockbits, rand);
            var c := Replay(policy, trace, size, clockbits, rand, i);
            |hist| == |trace| + 1 && hist[i] == Pages(c.memory) && (n in hist[i] <==> n in c.memory)
  {
  }

  lemma PolicyIsDemandRun(policy: Policy, trace: seq<int>, size: nat, clockbits: int, rand: nat -> Draw)
    requires size >= 1
    ensures DemandRun(trace, size, History(policy, trace, size, clockbits, rand))
  {
    hide Access, DemandStep, Valid, Pages, History;
    var hist := History(policy, trace, size, clockbits, rand);
    HistoryAt(policy, trace, size, clockbits, rand, 0, 0);
    forall i | 0 <= i < |trace| ensures DemandStep(size, hist[i], trace[i], hist[i + 1]) {
      HistoryAt(policy, trace, size, clockbits, rand, i, 0);
      HistoryAt(policy, trace, size, clockbits, rand, i + 1, 0);
      AccessIsDemandStep(policy, trace, size, clockbits, rand, i, Replay(policy, trace, size, clockbits, rand, i));
    }
    NotBehindAtStart(trace);
  }

  lemma {:induction false} PolicyMisses(policy: Policy, trace: seq<int>, size: nat, clockbits: int,
                                        rand: nat -> Draw, k: nat)
    requires size >= 1 && k <= |trace|
    ensures |History(policy, trace, size, clockbits, rand)| == |trace| + 1
    ensures Replay(policy, trace, size, clockbits, rand, k).miss
         == Misses(trace, History(policy, trace, size, clockbits, rand), k)
  {
    hide Access, Pages, History, Valid;
    HistoryAt(policy, trace, size, clockbits, rand, 0, 0);
    if k > 0 {
      PolicyMisses(policy, trace, size, clockbits, rand, k - 1);
      HistoryAt(policy, trace, size, clockbits, rand, k - 1, trace[k - 1]);
    }
  }

  // ---------------------------------------------------------------- OPT is optimal

  /**
   OPT against a rival run: OPT has not missed more often, even after being charged one miss
   for each page needed by time `t` that the rival holds in excess of OPT.
   */
  ghost predicate NotBehind(trace: seq<int>, i: nat, optMiss: nat, opt: set<int>, rivalMiss: nat, rival: set<int>)
    requires i <= |trace|
  {
    optMiss <= rivalMiss && forall t :: i <= t < |trace| ==> Covered(trace, i, t, optMiss, opt, rivalMiss, rival)
  }

  ghost predicate Covered(trace: seq<int>, i: nat, t: nat, optMiss: nat, opt: set<int>, rivalMiss: nat, rival: set<int>)
    requires i <= |trace|
  {
    optMiss + |Soon(trace, rival, i, t)| - |Soon(trace, opt, i, t)| <= rivalMiss
  }

  /** What OPT does to the set of resident pages. */
  ghost predicate OptStep(trace: seq<int>, size: nat, i: nat, memory: seq<int>, opt': set<int>)
    requires i < |trace| && size >= 1
  {
    opt' ==
    if trace[i] in memory then Pages(memory)
    else if |memory| < size then Pages(memory) + {trace[i]}
    else Pages(memory) - {memory[Farthest(trace, i + 1, memory)]} + {trace[i]}
  }

  lemma AccessIsOptStep(trace: seq<int>, size: nat, clockbits: int, rand: nat -> Draw, i: nat, c: Cache)
    requires i < |trace| && size >= 1 && Valid(c, size)
    ensures OptStep(trace, size, i, c.memory, Pages(Access(OPT, trace, size, clockbits, rand, i, c).memory))
  {
    AccessPages(OPT, trace, size, clockbits, rand, i, c);
  }

  lemma CoveredAt(trace: seq<int>, i: nat, t: nat, optMiss: nat, opt: set<int>, rivalMiss: nat, rival: set<int>)
    requires i <= t < |trace| && NotBehind(trace, i, optMiss, opt, rivalMiss, rival)
    ensures optMiss <= rivalMiss && Covered(trace, i, t, optMiss, opt, rivalMiss, rival)
  {
  }

  /** The heart of the proof: one access keeps OPT from falling behind, at every horizon `t`. */
  lemma HorizonKept(trace: seq<int>, size: nat, i: nat, t: nat, memory: seq<int>, optMiss: nat, opt': set<int>,
                    rivalMiss: nat, rival: set<int>, rival': set<int>)
    requires i < t < |trace| && size >= 1 && Distinct(memory) && |memory| <= size
    requires OptStep(trace, size, i, memory, opt') && DemandStep(size, rival, trace[i], rival')
    requires NotBehind(trace, i, optMiss, Pages(memory), rivalMiss, rival)
    ensures Covered(trace, i + 1, t, optMiss + (if trace[i] in memory then 0 else 1), opt',
                    rivalMiss + (if trace[i] in rival then 0 else 1), rival')
  {
    hide OptStep, DemandStep, Soon, NotBehind, Again, Pages, Distinct;
    SoonAtMost(trace, size, rival, rival', i, t);
    OptSoon(trace, size, i, t, memory, opt');
    MissHorizon(trace, i, memory, optMiss, rivalMiss, rival);
    CoveredAt(trace, i, t, optMiss, Pages(memory), rivalMiss, rival);
  }

  /** OPT loses a page needed by time `t` only when all it holds are needed by then. */
  lemma OptSoon(trace: seq<int>, size: nat, i: nat, t: nat, memory: seq<int>, opt': set<int>)
    requires i < |trace| && t >= i && size >= 1 && Distinct(memory) && |memory| <= size
    requires OptStep(trace, size, i, memory, opt')
    ensures var held, again := |Soon(trace, opt', i + 1, t)|, Again(trace, i, t);
            || held == |Soon(trace, Pages(memory), i, t)| + again - (if trace[i] in memory then 1 else 0)
            || (trace[i] !in memory && held == size - 1 + again)
  {
    hide NextRef, Soon, Again, Distinct;
    var n, opt := trace[i], Pages(memory);
    if n in memory || |memory| < size {
      SoonAtLeast(trace, opt, {}, i, t);
      assert opt - {} + {n} == opt';
      assert Soon(trace, opt, i, t) - {} == Soon(trace, opt, i, t);
    } else {
      var v := memory[Farthest(trace, i + 1, memory)];
      SoonAtLeast(trace, opt, {v}, i, t);
      if v !in Soon(trace, opt, i, t) {
        assert Soon(trace, opt, i, t) - {v} == Soon(trace, opt, i, t);
      } else {
        AllSoon(trace, i, t, memory);
        DistinctSize(memory);
        assert |opt - {v}| == size - 1;
      }
    }
  }

  /** If the victim OPT picks is needed by `t`, every resident page is. */
  lemma AllSoon(trace: seq<int>, i: nat, t: nat, memory: seq<int>)
    requires i < |trace| && memory != [] && trace[i] !in memory
    requires memory[Farthest(trace, i + 1, memory)] in Soon(trace, Pages(memory), i, t)
    ensures Soon(trace, Pages(memory), i, t) == Pages(memory)
  {
    FarthestIsFarthest(trace, i + 1, memory);
    forall p | p in memory ensures NextRef(trace, p, i) <= t {
      var k :| 0 <= k < |memory| && memory[k] == p;
      assert NextRef(trace, memory[k], i + 1) <= t;
    }
  }

  /** A page the rival holds and OPT lacks is a miss already paid for. */
  lemma MissHorizon(trace: seq<int>, i: nat, memory: seq<int>, optMiss: nat, rivalMiss: nat, rival: set<int>)
    requires i < |trace| && NotBehind(trace, i, optMiss, Pages(memory), rivalMiss, rival)
    ensures trace[i] in rival && trace[i] !in memory ==> optMiss + 1 <= rivalMiss
  {
    if trace[i] in rival && trace[i] !in memory {
      assert Covered(trace, i, i, optMiss, Pages(memory), rivalMiss, rival);
      assert trace[i] in Soon(trace, rival, i, i);
      assert Soon(trace, Pages(memory), i, i) == {};
    }
  }

  lemma NotBehindKept(trace: seq<int>, size: nat, i: nat, memory: seq<int>, optMiss: nat, opt': set<int>,
                      rivalMiss: nat, rival: set<int>, rival': set<int>)
    requires i < |trace| && size >= 1 && Distinct(memory) && |memory| <= size
    requires OptStep(trace, size, i, memory, opt') && DemandStep(size, rival, trace[i], rival')
    requires NotBehind(trace, i, optMiss, Pages(memory), rivalMiss, rival)
    ensures NotBehind(trace, i + 1, optMiss + (if trace[i] in memory then 0 else 1), opt',
                      rivalMiss + (if trace[i] in rival then 0 else 1), rival')
  {
    MissHorizon(trace, i, memory, optMiss, rivalMiss, rival);
    var j, optMiss', rivalMiss' :=
      i + 1, optMiss + (if trace[i] in memory then 0 else 1), rivalMiss + (if trace[i] in rival then 0 else 1);
    forall t | j <= t < |trace| ensures Covered(trace, j, t, optMiss', opt', rivalMiss', rival') {
      HorizonKept(trace, size, i, t, memory, optMiss, opt', rivalMiss, rival, rival');
    }
  }

  lemma NotBehindAtStart(trace: seq<int>)
    ensures Pages([]) == {} && NotBehind(trace, 0, 0, {}, 0, {})
  {
    assert forall t :: Soon(trace, {}, 0, t) == {};
  }

  lemma {:induction false} OptNotBehind(trace: seq<int>, size: nat, clockbits: int, rand: nat -> Draw,
                                        hist: seq<set<int>>, i: nat)
    requires size >= 1 && i <= |trace| && DemandRun(trace, size, hist)
    ensures var c := Replay(OPT, trace, size, clockbits, rand, i);
            NotBehind(trace, i, c.miss, Pages(c.memory), Misses(trace, hist, i), hist[i])
  {
    hide Access, OptStep, NotBehind, DemandStep;
    if i > 0 {
      OptNotBehind(trace, size, clockbits, rand, hist, i - 1);
      var c := Replay(OPT, trace, size, clockbits, rand, i - 1);
      var d := Access(OPT, trace, size, clockbits, rand, i - 1, c);
      AccessIsOptStep(trace, size, clockbits, rand, i - 1, c);
      NotBehindKept(trace, size, i - 1, c.memory, c.miss, Pages(d.memory), Misses(trace, hist, i - 1),
                    hist[i - 1], hist[i]);
    } else {
      NotBehindAtStart(trace);
    }
  }

  /** OPT misses no more often than any demand run, at the end of the trace and at every point before. */
  lemma OptIsOptimal(trace: seq<int>, size: nat, clockbits: int, rand: nat -> Draw, hist: seq<set<int>>)
    requires size >= 1 && DemandRun(trace, size, hist)
    ensures forall k :: 0 <= k <= |trace| ==>
              Replay(OPT, trace, size, clockbits, rand, k).miss <= Misses(trace, hist, k)
  {
    forall k | 0 <= k <= |trace|
      ensures Replay(OPT, trace, size, clockbits, rand, k).miss <= Misses(trace, hist, k)
    {
      OptNotBehind(trace, size, clockbits, rand, hist, k);
    }
  }

  /** In particular OPT beats FIFO, LRU, MRU, RAND, CLOCK and UNOPT, whatever clock bits and random draws they get. */
  lemma OptBeatsEveryPolicy(policy: Policy, trace: seq<int>, size: nat, clockbits: int, rand: nat -> Draw,
                            rand': nat -> Draw, k: nat)
    requires size >= 1 && k <= |trace|
    ensures Replay(OPT, trace, size, clockbits, rand, k).miss <= Replay(policy, trace, size, clockbits, rand', k).miss
  {
    PolicyIsDemandRun(policy, trace, size, clockbits, rand');
    PolicyMisses(policy, trace, size, clockbits, rand', k);
    OptIsOptimal(trace, size, clockbits, rand, History(policy, trace, size, clockbits, rand'));
  }

  // ---------------------------------------------------------------- LRU inclusion

  predicate IsSuffix(a: seq<int>, b: seq<int>) {
    |a| <= |b| && b[|b| - |a|..] == a
  }

  /** The two lists of an LRU cache of `small` and one of `large` pages. */
  ghost predicate Included(small: nat, a: seq<int>, b: seq<int>) {
    IsSuffix(a, b) && (|a| < small ==> a == b) && |a| <= small
  }

  lemma IndexInSuffix(a: seq<int>, b: seq<int>, n: int)
    requires IsSuffix(a, b) && Distinct(b) && n in a
    ensures n in b && IndexOf(b, n) == IndexOf(a, n) + |b| - |a|
  {
    var off := |b| - |a|;
    assert b[off + IndexOf(a, n)] == a[IndexOf(a, n)];
  }

  /** The LRU list after a reference to `n`. */
  function LruList(size: nat, memory: seq<int>, n: int): seq<int>
    requires size >= 1
  {
    (if n in memory then RemoveAt(memory, IndexOf(memory, n))
     else if |memory| == size then memory[1..]
     else memory) + [n]
  }

  lemma LruAccess(trace: seq<int>, size: nat, clockbits: int, rand: nat -> Draw, i: nat, c: Cache)
    requires i < |trace| && size >= 1 && Valid(c, size)
    ensures Access(LRU, trace, size, clockbits, rand, i, c).memory == LruList(size, c.memory, trace[i])
  {
  }

  /** A hit in both caches. */
  lemma InclusionHit(a: seq<int>, b: seq<int>, n: int)
    requires IsSuffix(a, b) && Distinct(b) && n in a
    ensures n in b && IsSuffix(RemoveAt(a, IndexOf(a, n)) + [n], RemoveAt(b, IndexOf(b, n)) + [n])
    ensures a == b ==> RemoveAt(a, IndexOf(a, n)) == RemoveAt(b, IndexOf(b, n))
  {
    hide IndexOf, Distinct;
    IndexInSuffix(a, b, n);
    RemoveInSuffix(a, b, IndexOf(a, n), n);
  }

  lemma RemoveInSuffix(a: seq<int>, b: seq<int>, k: nat, n: int)
    requires IsSuffix(a, b) && k < |a|
    ensures IsSuffix(RemoveAt(a, k) + [n], RemoveAt(b, k + |b| - |a|) + [n])
  {
    var off := |b| - |a|;
    var a', b' := RemoveAt(a, k) + [n], RemoveAt(b, off + k) + [n];
    assert forall j :: 0 <= j < |a| ==> a[j] == b[off + j];
    assert forall j :: 0 <= j < |a'| ==> a'[j] == b'[off + j];
  }

  /** A hit in the larger cache only: the page lies in the part the smaller cache has dropped. */
  lemma InclusionHalfHit(a: seq<int>, b: seq<int>, n: int)
    requires IsSuffix(a, b) && a != [] && n in b && n !in a
    ensures IsSuffix(a[1..] + [n], RemoveAt(b, IndexOf(b, n)) + [n])
  {
    var off, k := |b| - |a|, IndexOf(b, n);
    assert forall j :: off <= j < |b| ==> b[j] == a[j - off];
    assert (b[..k] + b[k + 1..])[off - 1..] == a;
  }

  lemma InclusionStep(small: nat, large: nat, a: seq<int>, b: seq<int>, n: int)
    requires 1 <= small <= large && |b| <= large && Distinct(b)
    requires Included(small, a, b)
    ensures Included(small, LruList(small, a, n), LruList(large, b, n))
  {
    if n in a {
      InclusionHit(a, b, n);
    } else if n in b {
      InclusionHalfHit(a, b, n);
    }
  }

  /** After every prefix of every trace the smaller LRU cache is the most recent part of the larger one. */
  lemma {:induction false} LruInclusion(trace: seq<int>, small: nat, large: nat, clockbits: int, rand: nat -> Draw,
                                        i: nat)
    requires 1 <= small <= large && i <= |trace|
    ensures Included(small, Replay(LRU, trace, small, clockbits, rand, i).memory,
                     Replay(LRU, trace, large, clockbits, rand, i).memory)
  {
    hide Access, LruList;
    if i > 0 {
      LruInclusion(trace, small, large, clockbits, rand, i - 1);
      var c, d := Replay(LRU, trace, small, clockbits, rand, i - 1), Replay(LRU, trace, large, clockbits, rand, i - 1);
      LruAccess(trace, small, clockbits, rand, i - 1, c);
      LruAccess(trace, large, clockbits, rand, i - 1, d);
      InclusionStep(small, large, c.memory, d.memory, trace[i - 1]);
    }
  }

  /** Every hit of the smaller LRU cache is a hit of the larger one, so hits never fall as the cache grows. */
  lemma {:induction false} LruNoAnomaly(trace: seq<int>, small: nat, large: nat, clockbits: int, rand: nat -> Draw,
                                        i: nat)
    requires 1 <= small <= large && i <= |trace|
    ensures i < |trace| && trace[i] in Replay(LRU, trace, small, clockbits, rand, i).memory
            ==> trace[i] in Replay(LRU, trace, large, clockbits, rand, i).memory
    ensures Replay(LRU, trace, small, clockbits, rand, i).hits <= Replay(LRU, trace, large, clockbits, rand, i).hits
  {
    hide Access;
    LruInclusion(trace, small, large, clockbits, rand, i);
    if i > 0 {
      LruNoAnomaly(trace, small, large, clockbits, rand, i - 1);
    }
  }
}

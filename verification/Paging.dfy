/**
 The page-replacement simulator of 22/paging-policy.py: a trace of page numbers is
 replayed against a cache of `size` pages under one of seven policies.

 `Replay` is the value the script's main loop computes after a prefix of the trace, and
 `Simulate` is that loop. The theorems are in PagingTheorems.dfy.
 */
module Paging {

  datatype Policy = FIFO | LRU | MRU | RAND | CLOCK | OPT | UNOPT

  /** A value of Python's random.random(). */
  type Draw = r: real | 0.0 <= r < 1.0 witness 0.0

  /** The script's variables; `count` is always |memory|, and `drawn` is how many random numbers were used. */
  datatype Cache = Cache(memory: seq<int>, ref: map<int, int>, hits: nat, miss: nat, drawn: nat)

  const EMPTY := Cache([], map[], 0, 0, 0)

  predicate Distinct(s: seq<int>) {
    forall i, j :: 0 <= i < j < |s| ==> s[i] != s[j]
  }

  /** What holds between two accesses; every resident page has a reference count. */
  ghost predicate Valid(c: Cache, size: nat) {
    && |c.memory| <= size
    && Distinct(c.memory)
    && Counted(c.memory, c.ref)
  }

  predicate Counted(memory: seq<int>, ref: map<int, int>) {
    forall k :: 0 <= k < |memory| ==> memory[k] in ref
  }

  /** list.pop(k) */
  function RemoveAt(s: seq<int>, k: nat): seq<int>
    requires k < |s|
  {
    s[..k] + s[k + 1..]
  }

  /** Dropping slot `k` and appending a page `n` that is not left behind. */
  lemma Replaced(s: seq<int>, k: nat, n: int)
    requires k < |s| && Distinct(s) && (n == s[k] || n !in s)
    ensures Distinct(RemoveAt(s, k) + [n])
    ensures forall p :: p in RemoveAt(s, k) + [n] <==> p == n || (p in s && p != s[k])
  {
    var r := RemoveAt(s, k);
    assert s == s[..k] + [s[k]] + s[k + 1..];
    assert forall p :: p in r ==> p in s;
    assert s[k] !in r;
  }

  /** list.index(x) */
  function IndexOf(s: seq<int>, x: int): (k: nat)
    requires x in s
    ensures k < |s| && s[k] == x && x !in s[..k]
  {
    if s[0] == x then 0 else 1 + IndexOf(s[1..], x)
  }

  /** The first position at or after `i` where page `p` is referenced, |trace| if there is none. */
  function NextRef(trace: seq<int>, p: int, i: nat): (t: nat)
    requires i <= |trace|
    ensures i <= t <= |trace|
    decreases |trace| - i
  {
    if i == |trace| || trace[i] == p then i else NextRef(trace, p, i + 1)
  }

  lemma {:induction false} NextRefIsFirst(trace: seq<int>, p: int, i: nat)
    requires i <= |trace|
    ensures var t := NextRef(trace, p, i);
            && (t < |trace| ==> trace[t] == p)
            && (forall j :: i <= j < t ==> trace[j] != p)
    decreases |trace| - i
  {
    if i < |trace| && trace[i] != p {
      NextRefIsFirst(trace, p, i + 1);
    }
  }

  /** `v` is the resident page referenced farthest in the future, the last such page if several never return. */
  ghost predicate IsFarthest(trace: seq<int>, i: nat, memory: seq<int>, v: nat)
    requires i <= |trace|
  {
    && v < |memory|
    && (forall k :: 0 <= k < |memory| ==> NextRef(trace, memory[k], i) <= NextRef(trace, memory[v], i))
    && (forall k :: v < k < |memory| ==> NextRef(trace, memory[k], i) < NextRef(trace, memory[v], i))
  }

  /** `v` is the resident page referenced soonest, the first such page if several never return. */
  ghost predicate IsNearest(trace: seq<int>, i: nat, memory: seq<int>, v: nat)
    requires i <= |trace|
  {
    && v < |memory|
    && (forall k :: 0 <= k < |memory| ==> NextRef(trace, memory[v], i) <= NextRef(trace, memory[k], i))
    && (forall k :: 0 <= k < v ==> NextRef(trace, memory[v], i) < NextRef(trace, memory[k], i))
  }

  function Farthest(trace: seq<int>, i: nat, memory: seq<int>): (v: nat)
    requires i <= |trace| && memory != []
    ensures v < |memory|
  {
    var last := |memory| - 1;
    if last == 0 then 0 else
      var v := Farthest(trace, i, memory[..last]);
      if NextRef(trace, memory[last], i) >= NextRef(trace, memory[v], i) then last else v
  }

  lemma {:induction false} FarthestIsFarthest(trace: seq<int>, i: nat, memory: seq<int>)
    requires i <= |trace| && memory != []
    ensures IsFarthest(trace, i, memory, Farthest(trace, i, memory))
  {
    var last := |memory| - 1;
    if last > 0 {
      FarthestIsFarthest(trace, i, memory[..last]);
      assert forall k :: 0 <= k < last ==> memory[..last][k] == memory[k];
    }
  }

  function Nearest(trace: seq<int>, i: nat, memory: seq<int>): (v: nat)
    requires i <= |trace| && memory != []
    ensures v < |memory|
  {
    var last := |memory| - 1;
    if last == 0 then 0 else
      var v := Nearest(trace, i, memory[..last]);
      if NextRef(trace, memory[last], i) < NextRef(trace, memory[v], i) then last else v
  }

  lemma {:induction false} NearestIsNearest(trace: seq<int>, i: nat, memory: seq<int>)
    requires i <= |trace| && memory != []
    ensures IsNearest(trace, i, memory, Nearest(trace, i, memory))
  {
    var last := |memory| - 1;
    if last > 0 {
      NearestIsNearest(trace, i, memory[..last]);
      assert forall k :: 0 <= k < last ==> memory[..last][k] == memory[k];
    }
  }

  /** int(random.random() * count) */
  function Pick(r: Draw, count: nat): (k: nat)
    requires count > 0
    ensures k < count
  {
    assert 0.0 <= r * count as real < count as real by {
      assert r * count as real <= r * count as real;
      ScaleBelow(r, count as real);
    }
    (r * count as real).Floor
  }

  lemma ScaleBelow(r: Draw, x: real)
    requires x > 0.0
    ensures 0.0 <= r * x < x
  {
    assert (1.0 - r) * x > 0.0;
  }

  /** How many second chances the resident pages have left together. */
  function Chances(memory: seq<int>, ref: map<int, int>): nat
    requires Counted(memory, ref)
  {
    if memory == [] then 0
    else (if ref[memory[0]] >= 1 then ref[memory[0]] else 0) + Chances(memory[1..], ref)
  }

  lemma {:induction false} ChancesDrop(memory: seq<int>, ref: map<int, int>, page: int)
    requires Counted(memory, ref)
    requires page in memory && ref[page] >= 1
    ensures Chances(memory, ref[page := ref[page] - 1]) < Chances(memory, ref)
  {
    var ref' := ref[page := ref[page] - 1];
    if page in memory[1..] {
      ChancesDrop(memory[1..], ref, page);
    } else {
      ChancesKeep(memory[1..], ref, page, ref[page] - 1);
    }
  }

  lemma {:induction false} ChancesKeep(memory: seq<int>, ref: map<int, int>, page: int, r: int)
    requires Counted(memory, ref)
    requires page !in memory
    ensures Chances(memory, ref[page := r]) == Chances(memory, ref)
  {
    if memory != [] {
      ChancesKeep(memory[1..], ref, page, r);
    }
  }

  /** The result of a CLOCK scan: the victim's slot, the reference counts, the draws used so far. */
  datatype Scan = Scan(victim: nat, ref: map<int, int>, drawn: nat)

  /**
   CLOCK draws random slots until one has no second chance left. Whatever the draws, the
   scan ends: each unsuccessful draw uses up one of the `Chances`.
   */
  function ClockScan(memory: seq<int>, ref: map<int, int>, rand: nat -> Draw, drawn: nat): (s: Scan)
    requires memory != []
    requires Counted(memory, ref)
    ensures s.victim < |memory| && s.ref.Keys == ref.Keys
    ensures s.ref[memory[s.victim]] < 1
    ensures drawn < s.drawn <= drawn + Chances(memory, ref) + 1
    decreases Chances(memory, ref)
  {
    var v := Pick(rand(drawn), |memory|);
    var page := memory[v];
    if ref[page] >= 1 then
      ChancesDrop(memory, ref, page);
      ClockScan(memory, ref[page := ref[page] - 1], rand, drawn + 1)
    else
      Scan(v, ref, drawn + 1)
  }

  lemma ClockScanNext(memory: seq<int>, ref: map<int, int>, rand: nat -> Draw, drawn: nat)
    requires memory != [] && Counted(memory, ref)
    ensures var v := Pick(rand(drawn), |memory|);
            var page := memory[v];
            if ref[page] >= 1 then
              var ref' := ref[page := ref[page] - 1];
              && Counted(memory, ref') && Chances(memory, ref') < Chances(memory, ref)
              && ClockScan(memory, ref, rand, drawn) == ClockScan(memory, ref', rand, drawn + 1)
            else ClockScan(memory, ref, rand, drawn) == Scan(v, ref, drawn + 1)
  {
    hide Chances, Pick;
    var page := memory[Pick(rand(drawn), |memory|)];
    if ref[page] >= 1 { ChancesDrop(memory, ref, page); }
  }

  /** The slot a full cache gives up, with the reference counts and draws after the search. */
  function Victim(policy: Policy, trace: seq<int>, i: nat, rand: nat -> Draw,
                  memory: seq<int>, ref: map<int, int>, drawn: nat): (s: Scan)
    requires i < |trace| && memory != []
    requires Counted(memory, ref)
    ensures s.victim < |memory|
    ensures s.ref.Keys == ref.Keys
  {
    match policy
    case FIFO => Scan(0, ref, drawn)
    case LRU => Scan(0, ref, drawn)
    case MRU => Scan(|memory| - 1, ref, drawn)
    case RAND => Scan(Pick(rand(drawn), |memory|), ref, drawn + 1)
    case CLOCK => ClockScan(memory, ref, rand, drawn)
    case OPT => Scan(Farthest(trace, i + 1, memory), ref, drawn)
    case UNOPT => Scan(Nearest(trace, i + 1, memory), ref, drawn)
  }

  /** The reference-count update that ends every access. */
  function Touch(ref: map<int, int>, n: int, clockbits: int): (r: map<int, int>)
    ensures r.Keys == ref.Keys + {n}
  {
    if n !in ref then ref[n := 1]
    else if ref[n] + 1 > clockbits then ref[n := clockbits]
    else ref[n := ref[n] + 1]
  }

  /** A hit; LRU and MRU move the page to the most-recently-used end. */
  function OnHit(policy: Policy, n: int, c: Cache): (d: Cache)
    requires n in c.memory
  {
    c.(memory := if policy.LRU? || policy.MRU? then RemoveAt(c.memory, IndexOf(c.memory, n)) + [n] else c.memory,
       hits := c.hits + 1)
  }

  /** A miss into free space, or one that evicts. */
  function OnMiss(policy: Policy, trace: seq<int>, size: nat, rand: nat -> Draw, i: nat, c: Cache): (d: Cache)
    requires i < |trace| && size >= 1 && Counted(c.memory, c.ref)
  {
    if |c.memory| == size then
      var s := Victim(policy, trace, i, rand, c.memory, c.ref, c.drawn);
      var ref := if policy.CLOCK? then s.ref - {c.memory[s.victim]} else s.ref;
      Cache(RemoveAt(c.memory, s.victim) + [trace[i]], ref, c.hits, c.miss + 1, s.drawn)
    else
      c.(memory := c.memory + [trace[i]], miss := c.miss + 1)
  }

  lemma HitKeepsValid(policy: Policy, n: int, size: nat, c: Cache)
    requires Valid(c, size) && n in c.memory
    ensures Valid(OnHit(policy, n, c), size)
  {
    Replaced(c.memory, IndexOf(c.memory, n), n);
    var d := OnHit(policy, n, c);
    forall k | 0 <= k < |d.memory| ensures d.memory[k] in d.ref {
      assert d.memory[k] in c.memory;
    }
  }

  lemma MissKeepsValid(policy: Policy, trace: seq<int>, size: nat, rand: nat -> Draw, i: nat, c: Cache)
    requires i < |trace| && size >= 1 && Valid(c, size) && trace[i] !in c.memory
    ensures var d := OnMiss(policy, trace, size, rand, i, c);
            |d.memory| <= size && Distinct(d.memory) && Counted(d.memory, d.ref[trace[i] := 0])
  {
    var d := OnMiss(policy, trace, size, rand, i, c);
    if |c.memory| == size {
      var s := Victim(policy, trace, i, rand, c.memory, c.ref, c.drawn);
      Replaced(c.memory, s.victim, trace[i]);
      forall k | 0 <= k < |d.memory| ensures d.memory[k] in d.ref[trace[i] := 0] {
        assert d.memory[k] == trace[i] || (d.memory[k] in c.memory && d.memory[k] != c.memory[s.victim]);
      }
    }
  }

  /** One turn of the main loop. */
  function Access(policy: Policy, trace: seq<int>, size: nat, clockbits: int, rand: nat -> Draw, i: nat,
                  c: Cache): (d: Cache)
    requires i < |trace| && size >= 1
    requires Valid(c, size)
    ensures Valid(d, size)
    ensures d.hits + d.miss == c.hits + c.miss + 1
    ensures d.miss == c.miss + if trace[i] in c.memory then 0 else 1
  {
    var n := trace[i];
    if n in c.memory then
      HitKeepsValid(policy, n, size, c);
      var d := OnHit(policy, n, c);
      d.(ref := Touch(d.ref, n, clockbits))
    else
      MissKeepsValid(policy, trace, size, rand, i, c);
      var d := OnMiss(policy, trace, size, rand, i, c);
      d.(ref := Touch(d.ref, n, clockbits))
  }

  /** The cache after the first `i` accesses of the trace. */
  function Replay(policy: Policy, trace: seq<int>, size: nat, clockbits: int, rand: nat -> Draw, i: nat): (c: Cache)
    requires i <= |trace| && size >= 1
    ensures Valid(c, size)
    ensures c.hits + c.miss == i
  {
    if i == 0 then EMPTY
    else
      var c := Replay(policy, trace, size, clockbits, rand, i - 1);
      Access(policy, trace, size, clockbits, rand, i - 1, c)
  }

  /** The inner loop of OPT and UNOPT: when is `page` next referenced, from position `from` on? */
  method WhenReferenced(trace: seq<int>, page: int, from: nat) returns (whenReferenced: nat)
    requires from <= |trace|
    ensures whenReferenced == NextRef(trace, page, from)
  {
    whenReferenced := |trace|;
    for futureIdx := from to |trace|
      invariant NextRef(trace, page, from) == NextRef(trace, page, futureIdx)
    {
      if page == trace[futureIdx] {
        whenReferenced := futureIdx;
        break;
      }
    }
  }

  /** OPT's victim search. */
  method OptVictim(trace: seq<int>, addrIndex: nat, memory: seq<int>) returns (replaceIdx: nat)
    requires addrIndex < |trace| && memory != []
    ensures replaceIdx == Farthest(trace, addrIndex + 1, memory)
  {
    var maxReplace: int := -1;
    replaceIdx := 0;
    for pageIndex := 0 to |memory|
      invariant pageIndex == 0 ==> maxReplace == -1
      invariant pageIndex > 0 ==> replaceIdx == Farthest(trace, addrIndex + 1, memory[..pageIndex])
      invariant pageIndex > 0 ==> maxReplace == NextRef(trace, memory[replaceIdx], addrIndex + 1)
    {
      assert memory[..pageIndex + 1][..pageIndex] == memory[..pageIndex];
      var whenReferenced := WhenReferenced(trace, memory[pageIndex], addrIndex + 1);
      if whenReferenced >= maxReplace {
        replaceIdx := pageIndex;
        maxReplace := whenReferenced;
      }
    }
    assert memory[..|memory|] == memory;
  }

  /** UNOPT's victim search. */
  method UnoptVictim(trace: seq<int>, addrIndex: nat, memory: seq<int>) returns (replaceIdx: nat)
    requires addrIndex < |trace| && memory != []
    ensures replaceIdx == Nearest(trace, addrIndex + 1, memory)
  {
    var minReplace := |trace| + 1;
    replaceIdx := 0;
    for pageIndex := 0 to |memory|
      invariant pageIndex == 0 ==> minReplace == |trace| + 1
      invariant pageIndex > 0 ==> replaceIdx == Nearest(trace, addrIndex + 1, memory[..pageIndex])
      invariant pageIndex > 0 ==> minReplace == NextRef(trace, memory[replaceIdx], addrIndex + 1)
    {
      assert memory[..pageIndex + 1][..pageIndex] == memory[..pageIndex];
      var whenReferenced := WhenReferenced(trace, memory[pageIndex], addrIndex + 1);
      if whenReferenced < minReplace {
        replaceIdx := pageIndex;
        minReplace := whenReferenced;
      }
    }
    assert memory[..|memory|] == memory;
  }

  /** CLOCK's random scan; it ends whatever the generator delivers. */
  method ClockVictim(memory: seq<int>, ref0: map<int, int>, rand: nat -> Draw, drawn0: nat)
    returns (victim: nat, ref: map<int, int>, drawn: nat)
    requires memory != []
    requires Counted(memory, ref0)
    ensures Scan(victim, ref, drawn) == ClockScan(memory, ref0, rand, drawn0)
    ensures drawn - drawn0 <= Chances(memory, ref0) + 1
  {
    hide ClockScan, Chances, Pick;
    ref, drawn := ref0, drawn0;
    while true
      invariant Counted(memory, ref)
      invariant ClockScan(memory, ref, rand, drawn) == ClockScan(memory, ref0, rand, drawn0)
      decreases Chances(memory, ref)
    {
      ClockScanNext(memory, ref, rand, drawn);
      victim := Pick(rand(drawn), |memory|);
      var page := memory[victim];
      if ref[page] >= 1 {
        ref, drawn := ref[page := ref[page] - 1], drawn + 1;
      } else {
        drawn := drawn + 1;
        return;
      }
    }
  }

  /** The policy switch of a miss on a full cache. */
  method ChooseVictim(policy: Policy, trace: seq<int>, addrIndex: nat, rand: nat -> Draw,
                      memory: seq<int>, ref0: map<int, int>, drawn0: nat)
    returns (idx: nat, ref: map<int, int>, drawn: nat)
    requires addrIndex < |trace| && memory != []
    requires Counted(memory, ref0)
    ensures Scan(idx, ref, drawn) == Victim(policy, trace, addrIndex, rand, memory, ref0, drawn0)
  {
    ref, drawn := ref0, drawn0;
    match policy {
      case FIFO => idx := 0;
      case LRU => idx := 0;
      case MRU => idx := |memory| - 1;
      case RAND => idx := Pick(rand(drawn), |memory|); drawn := drawn + 1;
      case CLOCK => idx, ref, drawn := ClockVictim(memory, ref, rand, drawn);
      case OPT => idx := OptVictim(trace, addrIndex, memory);
      case UNOPT => idx := UnoptVictim(trace, addrIndex, memory);
    }
  }

  /** The script's variables, updated in place by each access. */
  class Simulator {
    var memory: seq<int>
    var ref: map<int, int>
    var count: nat
    var hits: nat
    var miss: nat
    var drawn: nat

    ghost function State(): Cache
      reads this
    {
      Cache(memory, ref, hits, miss, drawn)
    }

    constructor ()
      ensures State() == EMPTY && count == 0
    {
      memory, ref, count, hits, miss, drawn := [], map[], 0, 0, 0, 0;
    }

    /** The hit branch. */
    method Hit(policy: Policy, n: int)
      requires n in memory
      modifies this`memory, this`hits
      ensures State() == OnHit(policy, n, old(State())) && |memory| == |old(memory)|
    {
      hits := hits + 1;
      if policy == LRU || policy == MRU {
        memory := RemoveAt(memory, IndexOf(memory, n)) + [n];
      }
    }

    /** The miss branch. */
    method Miss(policy: Policy, addrList: seq<int>, addrIndex: nat, cachesize: nat, rand: nat -> Draw)
      requires addrIndex < |addrList| && cachesize >= 1
      requires count == |memory| && Counted(memory, ref)
      modifies this
      ensures State() == OnMiss(policy, addrList, cachesize, rand, addrIndex, old(State())) && count == |memory|
    {
      hide Victim;
      miss := miss + 1;
      if count == cachesize {
        var idx: nat;
        idx, ref, drawn := ChooseVictim(policy, addrList, addrIndex, rand, memory, ref, drawn);
        if policy == CLOCK {
          ref := ref - {memory[idx]};
        }
        memory := RemoveAt(memory, idx);
      } else {
        count := count + 1;
      }
      memory := memory + [addrList[addrIndex]];
    }

    /** One turn of the main loop. */
    method Reference(policy: Policy, addrList: seq<int>, addrIndex: nat, cachesize: nat, clockbits: int,
                     rand: nat -> Draw)
      requires addrIndex < |addrList| && cachesize >= 1
      requires count == |memory| && Valid(State(), cachesize)
      modifies this
      ensures State() == Access(policy, addrList, cachesize, clockbits, rand, addrIndex, old(State()))
      ensures count == |memory|
    {
      var n := addrList[addrIndex];
      if n in memory {
        Hit(policy, n);
      } else {
        Miss(policy, addrList, addrIndex, cachesize, rand);
      }
      ref := Touch(ref, n, clockbits);
    }
  }

  /** The script's main loop. */
  method Simulate(policy: Policy, addrList: seq<int>, cachesize: nat, clockbits: int, rand: nat -> Draw)
    returns (hits: nat, miss: nat, memory: seq<int>)
    requires cachesize >= 1
    ensures var c := Replay(policy, addrList, cachesize, clockbits, rand, |addrList|);
            hits == c.hits && miss == c.miss && memory == c.memory
    ensures hits + miss == |addrList| && |memory| <= cachesize && Distinct(memory)
  {
    var sim := new Simulator();
    for addrIndex := 0 to |addrList|
      invariant sim.count == |sim.memory|
      invariant sim.State() == Replay(policy, addrList, cachesize, clockbits, rand, addrIndex)
    {
      sim.Reference(policy, addrList, addrIndex, cachesize, clockbits, rand);
    }
    hits, miss, memory := sim.hits, sim.miss, sim.memory;
  }
}

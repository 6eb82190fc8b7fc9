/**
 What each policy of 22/paging-policy.py evicts and keeps, said in terms of the trace alone: the
 order of loading for FIFO, the last reference for LRU and MRU, the next reference for OPT and
 UNOPT, the draws for RAND and CLOCK.
 */
module PagingPolicies {
  import opened Paging
  import PagingTheorems

  /** Access i throws page p out. */
  ghost predicate Evicted(policy: Policy, trace: seq<int>, size: nat, clockbits: int, rand: nat -> Draw, i: nat, p: int)
    requires i < |trace| && size >= 1
  {
    && p in Replay(policy, trace, size, clockbits, rand, i).memory
    && p !in Replay(policy, trace, size, clockbits, rand, i + 1).memory
  }

  /** The page thrown out is the one in the victim's slot, and only a miss on a full cache throws one out. */
  lemma EvictedIsVictim(policy: Policy, trace: seq<int>, size: nat, clockbits: int, rand: nat -> Draw, i: nat, p: int)
    requires i < |trace| && size >= 1
    ensures var c := Replay(policy, trace, size, clockbits, rand, i);
            Evicted(policy, trace, size, clockbits, rand, i, p) <==>
              && trace[i] !in c.memory && |c.memory| == size
              && p == c.memory[Victim(policy, trace, i, rand, c.memory, c.ref, c.drawn).victim]
  {
    hide Access, Victim;
    var c := Replay(policy, trace, size, clockbits, rand, i);
    var d := Replay(policy, trace, size, clockbits, rand, i + 1);
    PagingTheorems.AccessPages(policy, trace, size, clockbits, rand, i, c);
    assert p in d.memory <==> p in PagingTheorems.Pages(d.memory);
    assert p in c.memory <==> p in PagingTheorems.Pages(c.memory);
  }

  // ---------------------------------------------------------------- FIFO

  /** The pages that missed in the first i accesses, in order of loading. */
  ghost function Loads(policy: Policy, trace: seq<int>, size: nat, clockbits: int, rand: nat -> Draw, i: nat): seq<int>
    requires i <= |trace| && size >= 1
  {
    if i == 0 then []
    else
      Loads(policy, trace, size, clockbits, rand, i - 1) +
      if trace[i - 1] in Replay(policy, trace, size, clockbits, rand, i - 1).memory then [] else [trace[i - 1]]
  }

  /** What FIFO does to its list: nothing on a hit, drop the front if full and append on a miss. */
  lemma FifoAccess(trace: seq<int>, size: nat, clockbits: int, rand: nat -> Draw, i: nat, c: Cache)
    requires i < |trace| && size >= 1 && Valid(c, size)
    ensures Access(FIFO, trace, size, clockbits, rand, i, c).memory ==
            if trace[i] in c.memory then c.memory
            else if |c.memory| == size then c.memory[1..] + [trace[i]]
            else c.memory + [trace[i]]
  {
    if trace[i] !in c.memory && |c.memory| == size { assert RemoveAt(c.memory, 0) == c.memory[1..]; }
  }

  /** After every prefix of every trace, FIFO holds the pages loaded last, in order of loading. */
  lemma {:induction false} FifoWindow(trace: seq<int>, size: nat, clockbits: int, rand: nat -> Draw, i: nat)
    requires i <= |trace| && size >= 1
    ensures var c, loads := Replay(FIFO, trace, size, clockbits, rand, i), Loads(FIFO, trace, size, clockbits, rand, i);
            |loads| == c.miss && c.memory == Latest(loads, size)
  {
    hide Access, Latest, Replay;
    ReplayIs(FIFO, trace, size, clockbits, rand, i);
    if i > 0 {
      FifoWindow(trace, size, clockbits, rand, i - 1);
      FifoAccess(trace, size, clockbits, rand, i - 1, Replay(FIFO, trace, size, clockbits, rand, i - 1));
      LatestNext(Loads(FIFO, trace, size, clockbits, rand, i - 1), size, trace[i - 1]);
    } else {
      LatestNone(size);
    }
  }

  lemma ReplayIs(policy: Policy, trace: seq<int>, size: nat, clockbits: int, rand: nat -> Draw, i: nat)
    requires i <= |trace| && size >= 1
    ensures i == 0 ==> Replay(policy, trace, size, clockbits, rand, i) == EMPTY
    ensures i > 0 ==> Replay(policy, trace, size, clockbits, rand, i) ==
                      Access(policy, trace, size, clockbits, rand, i - 1,
                             Replay(policy, trace, size, clockbits, rand, i - 1))
  {
    hide Access;
  }

  /** The last `size` elements, or all if there are fewer. */
  function Latest(s: seq<int>, size: nat): seq<int> {
    if |s| < size then s else s[|s| - size..]
  }

  lemma LatestNone(size: nat)
    ensures Latest([], size) == []
  {
  }

  lemma LatestNext(s: seq<int>, size: nat, n: int)
    requires size >= 1
    ensures var m := Latest(s, size);
            |m| <= size && Latest(s + [n], size) == if |m| == size then m[1..] + [n] else m + [n]
    ensures s + [] == s
  {
  }

  // ---------------------------------------------------------------- LRU and MRU

  /** The position of the last reference to p before position i, -1 if there is none. */
  function LastRef(trace: seq<int>, p: int, i: nat): (k: int)
    requires i <= |trace|
    ensures -1 <= k < i
    ensures k >= 0 ==> trace[k] == p
    ensures forall m :: k < m < i ==> trace[m] != p
  {
    if i == 0 then -1 else if trace[i - 1] == p then i - 1 else LastRef(trace, p, i - 1)
  }

  /** The list is in the order of last reference, and every page on it was referenced. */
  ghost predicate ByRecency(trace: seq<int>, i: nat, memory: seq<int>)
    requires i <= |trace|
  {
    && (forall k :: 0 <= k < |memory| ==> LastRef(trace, memory[k], i) >= 0)
    && (forall a, b :: 0 <= a < b < |memory| ==> LastRef(trace, memory[a], i) < LastRef(trace, memory[b], i))
  }

  /** Taking a page out, or none, and putting the page just referenced at the end keeps the order. */
  lemma RecencyKept(trace: seq<int>, i: nat, memory: seq<int>, rest: seq<int>)
    requires i < |trace| && ByRecency(trace, i, memory) && trace[i] !in rest
    requires rest == memory || exists k :: 0 <= k < |memory| && rest == RemoveAt(memory, k)
    ensures ByRecency(trace, i + 1, rest + [trace[i]])
  {
    hide LastRef;
    Subsequence(trace, i, memory, rest);
    Later(trace, i, rest);
    var m := rest + [trace[i]];
    forall a, b | 0 <= a < b < |m| ensures LastRef(trace, m[a], i + 1) < LastRef(trace, m[b], i + 1) {
      assert m[a] == rest[a] && (b < |rest| ==> m[b] == rest[b]);
    }
  }

  /** A reference changes the last reference of its own page alone. */
  lemma Later(trace: seq<int>, i: nat, rest: seq<int>)
    requires i < |trace| && trace[i] !in rest
    ensures forall k :: 0 <= k < |rest| ==> LastRef(trace, rest[k], i + 1) == LastRef(trace, rest[k], i)
    ensures LastRef(trace, trace[i], i + 1) == i
  {
  }

  lemma Subsequence(trace: seq<int>, i: nat, memory: seq<int>, rest: seq<int>)
    requires i < |trace| && ByRecency(trace, i, memory)
    requires rest == memory || exists k :: 0 <= k < |memory| && rest == RemoveAt(memory, k)
    ensures ByRecency(trace, i, rest)
  {
    hide LastRef;
  }

  /** After every prefix, the lists of LRU and MRU are in the order of last reference. */
  lemma {:induction false} RecencyOrder(policy: Policy, trace: seq<int>, size: nat, clockbits: int,
                                        rand: nat -> Draw, i: nat)
    requires i <= |trace| && size >= 1 && (policy.LRU? || policy.MRU?)
    ensures ByRecency(trace, i, Replay(policy, trace, size, clockbits, rand, i).memory)
  {
    hide ByRecency, Access;
    if i > 0 {
      RecencyOrder(policy, trace, size, clockbits, rand, i - 1);
      RecencyStep(policy, trace, size, clockbits, rand, i - 1, Replay(policy, trace, size, clockbits, rand, i - 1));
    } else {
      NothingReferenced(trace);
    }
  }

  lemma NothingReferenced(trace: seq<int>)
    ensures ByRecency(trace, 0, [])
  {
  }

  lemma RecencyStep(policy: Policy, trace: seq<int>, size: nat, clockbits: int, rand: nat -> Draw, i: nat, c: Cache)
    requires i < |trace| && size >= 1 && (policy.LRU? || policy.MRU?) && Valid(c, size) && ByRecency(trace, i, c.memory)
    ensures ByRecency(trace, i + 1, Access(policy, trace, size, clockbits, rand, i, c).memory)
  {
    hide ByRecency, RemoveAt;
    var n, m := trace[i], c.memory;
    if n in m {
      var k := IndexOf(m, n);
      NotLeft(m, k);
      RecencyKept(trace, i, m, RemoveAt(m, k));
    } else if |m| == size {
      var k := Victim(policy, trace, i, rand, m, c.ref, c.drawn).victim;
      NotIn(m, k, n);
      RecencyKept(trace, i, m, RemoveAt(m, k));
    } else {
      RecencyKept(trace, i, m, m);
    }
  }

  lemma NotLeft(m: seq<int>, k: nat)
    requires Distinct(m) && k < |m|
    ensures m[k] !in RemoveAt(m, k)
  {
  }

  lemma NotIn(m: seq<int>, k: nat, n: int)
    requires k < |m| && n !in m
    ensures n !in RemoveAt(m, k)
  {
  }

  /** LRU throws out the page whose last reference is oldest. */
  lemma LruEvictsOldest(trace: seq<int>, size: nat, clockbits: int, rand: nat -> Draw, i: nat, p: int, q: int)
    requires i < |trace| && size >= 1 && Evicted(LRU, trace, size, clockbits, rand, i, p)
    requires q in Replay(LRU, trace, size, clockbits, rand, i).memory
    ensures 0 <= LastRef(trace, p, i) <= LastRef(trace, q, i)
  {
    hide Access;
    EvictedIsVictim(LRU, trace, size, clockbits, rand, i, p);
    RecencyOrder(LRU, trace, size, clockbits, rand, i);
    var memory := Replay(LRU, trace, size, clockbits, rand, i).memory;
    var k :| 0 <= k < |memory| && memory[k] == q;
  }

  /** MRU throws out the page referenced last. */
  lemma MruEvictsLatest(trace: seq<int>, size: nat, clockbits: int, rand: nat -> Draw, i: nat, p: int)
    requires i < |trace| && size >= 1 && Evicted(MRU, trace, size, clockbits, rand, i, p)
    ensures i > 0 && p == trace[i - 1]
  {
    hide Access;
    EvictedIsVictim(MRU, trace, size, clockbits, rand, i, p);
    RecencyOrder(MRU, trace, size, clockbits, rand, i);
    LatestResident(MRU, trace, size, clockbits, rand, i);
    var memory := Replay(MRU, trace, size, clockbits, rand, i).memory;
    var k :| 0 <= k < |memory| && memory[k] == trace[i - 1];
  }

  /** The page referenced last is resident. */
  lemma LatestResident(policy: Policy, trace: seq<int>, size: nat, clockbits: int, rand: nat -> Draw, i: nat)
    requires i <= |trace| && size >= 1
    ensures i > 0 ==> trace[i - 1] in Replay(policy, trace, size, clockbits, rand, i).memory
    ensures i == 0 ==> Replay(policy, trace, size, clockbits, rand, i).memory == []
  {
    hide Access, Victim;
    if i > 0 {
      var c := Replay(policy, trace, size, clockbits, rand, i - 1);
      PagingTheorems.AccessPages(policy, trace, size, clockbits, rand, i - 1, c);
      var d := Replay(policy, trace, size, clockbits, rand, i);
      assert trace[i - 1] in PagingTheorems.Pages(d.memory);
    }
  }

  // ---------------------------------------------------------------- OPT and UNOPT

  /** OPT throws out a page that no resident page outlasts. */
  lemma OptEvictsFarthest(trace: seq<int>, size: nat, clockbits: int, rand: nat -> Draw, i: nat, p: int, q: int)
    requires i < |trace| && size >= 1 && Evicted(OPT, trace, size, clockbits, rand, i, p)
    requires q in Replay(OPT, trace, size, clockbits, rand, i).memory
    ensures NextRef(trace, p, i + 1) >= NextRef(trace, q, i + 1)
  {
    hide Access, NextRef;
    EvictedIsVictim(OPT, trace, size, clockbits, rand, i, p);
    var memory := Replay(OPT, trace, size, clockbits, rand, i).memory;
    FarthestIsFarthest(trace, i + 1, memory);
    var k :| 0 <= k < |memory| && memory[k] == q;
  }

  /** UNOPT throws out a page that is needed no later than any other. */
  lemma UnoptEvictsNearest(trace: seq<int>, size: nat, clockbits: int, rand: nat -> Draw, i: nat, p: int, q: int)
    requires i < |trace| && size >= 1 && Evicted(UNOPT, trace, size, clockbits, rand, i, p)
    requires q in Replay(UNOPT, trace, size, clockbits, rand, i).memory
    ensures NextRef(trace, p, i + 1) <= NextRef(trace, q, i + 1)
  {
    hide Access, NextRef;
    EvictedIsVictim(UNOPT, trace, size, clockbits, rand, i, p);
    var memory := Replay(UNOPT, trace, size, clockbits, rand, i).memory;
    NearestIsNearest(trace, i + 1, memory);
    var k :| 0 <= k < |memory| && memory[k] == q;
  }

  // ---------------------------------------------------------------- RAND and CLOCK

  /** RAND uses one draw per eviction, and throws out the page in the slot that the draw scales to. */
  lemma RandEvicts(trace: seq<int>, size: nat, clockbits: int, rand: nat -> Draw, i: nat, p: int, k: nat)
    requires i < |trace| && size >= 1 && Evicted(RAND, trace, size, clockbits, rand, i, p)
    requires k < size
    ensures var c := Replay(RAND, trace, size, clockbits, rand, i);
            && |c.memory| == size && c.miss >= size
            && (c.memory[k] == p <==> k as real <= rand(c.miss - size) * size as real < k as real + 1.0)
  {
    hide Access, Replay, Victim, Pick;
    var c := Replay(RAND, trace, size, clockbits, rand, i);
    EvictedIsVictim(RAND, trace, size, clockbits, rand, i, p);
    RandDraws(trace, size, clockbits, rand, i);
    RandVictim(trace, i, rand, c.memory, c.ref, c.drawn);
    PickIs(rand(c.miss - size), size, k);
  }

  lemma RandVictim(trace: seq<int>, i: nat, rand: nat -> Draw, memory: seq<int>, ref: map<int, int>, drawn: nat)
    requires i < |trace| && memory != [] && Counted(memory, ref)
    ensures Victim(RAND, trace, i, rand, memory, ref, drawn).victim == Pick(rand(drawn), |memory|)
  {
  }

  lemma PickIs(r: Draw, count: nat, k: nat)
    requires k < count
    ensures Pick(r, count) == k <==> k as real <= r * count as real < k as real + 1.0
  {
  }

  lemma {:induction false} RandDraws(trace: seq<int>, size: nat, clockbits: int, rand: nat -> Draw, i: nat)
    requires i <= |trace| && size >= 1
    ensures var c := Replay(RAND, trace, size, clockbits, rand, i); c.drawn == c.miss - |c.memory|
  {
    if i > 0 { RandDraws(trace, size, clockbits, rand, i - 1); }
  }

  /** How many of the draws a to b - 1 fall on page p. */
  ghost function DrawsOn(memory: seq<int>, rand: nat -> Draw, a: nat, b: nat, p: int): nat
    requires memory != [] && a <= b
    decreases b - a
  {
    if a == b then 0
    else (if memory[Pick(rand(a), |memory|)] == p then 1 else 0) + DrawsOn(memory, rand, a + 1, b, p)
  }

  /**
   CLOCK's scan: every draw but the last takes one second chance from the page it falls on, and the last falls on
   the victim, which has none left.
   */
  lemma {:induction false} ClockTakesChances(memory: seq<int>, ref: map<int, int>, rand: nat -> Draw, drawn: nat,
                                             p: int)
    requires memory != [] && Counted(memory, ref) && p in ref
    ensures var s := ClockScan(memory, ref, rand, drawn);
            && s.drawn > drawn && s.victim == Pick(rand(s.drawn - 1), |memory|)
            && s.ref[p] == ref[p] - DrawsOn(memory, rand, drawn, s.drawn - 1, p)
            && s.ref[memory[s.victim]] <= 0
            && (ref[p] >= 0 ==> s.ref[p] >= 0)
    decreases Chances(memory, ref)
  {
    hide Chances, Pick, ClockScan;
    ClockScanNext(memory, ref, rand, drawn);
    var page := memory[Pick(rand(drawn), |memory|)];
    if ref[page] >= 1 {
      ClockTakesChances(memory, ref[page := ref[page] - 1], rand, drawn + 1, p);
    }
  }

  /** Under CLOCK exactly the resident pages have a count, so a page that comes back starts anew. */
  lemma {:induction false} ClockCountsResident(trace: seq<int>, size: nat, clockbits: int, rand: nat -> Draw, i: nat)
    requires i <= |trace| && size >= 1
    ensures var c := Replay(CLOCK, trace, size, clockbits, rand, i); c.ref.Keys == PagingTheorems.Pages(c.memory)
  {
    hide Access;
    if i > 0 {
      ClockCountsResident(trace, size, clockbits, rand, i - 1);
      ClockStep(trace, size, clockbits, rand, i - 1, Replay(CLOCK, trace, size, clockbits, rand, i - 1));
    }
  }

  lemma ClockStep(trace: seq<int>, size: nat, clockbits: int, rand: nat -> Draw, i: nat, c: Cache)
    requires i < |trace| && size >= 1 && Valid(c, size) && c.ref.Keys == PagingTheorems.Pages(c.memory)
    ensures var d := Access(CLOCK, trace, size, clockbits, rand, i, c); d.ref.Keys == PagingTheorems.Pages(d.memory)
  {
    hide ClockScan, IndexOf;
    PagingTheorems.AccessPages(CLOCK, trace, size, clockbits, rand, i, c);
  }

  // ---------------------------------------------------------------- reference counts

  /** How often p is referenced before position i. */
  function Occurrences(trace: seq<int>, p: int, i: nat): nat
    requires i <= |trace|
  {
    if i == 0 then 0 else Occurrences(trace, p, i - 1) + if trace[i - 1] == p then 1 else 0
  }

  /** Except under CLOCK, which spends them, a page's count is its number of references, capped by the clock bits. */
  lemma {:induction false} RefCounts(policy: Policy, trace: seq<int>, size: nat, clockbits: int, rand: nat -> Draw,
                                     i: nat, p: int)
    requires i <= |trace| && size >= 1 && clockbits >= 1 && !policy.CLOCK?
    ensures var ref, k := Replay(policy, trace, size, clockbits, rand, i).ref, Occurrences(trace, p, i);
            (p in ref <==> k > 0) && (k > 0 ==> ref[p] == if k < clockbits then k else clockbits)
  {
    hide Access;
    if i > 0 {
      RefCounts(policy, trace, size, clockbits, rand, i - 1, p);
      RefAccess(policy, trace, size, clockbits, rand, i - 1, Replay(policy, trace, size, clockbits, rand, i - 1));
    }
  }

  lemma RefAccess(policy: Policy, trace: seq<int>, size: nat, clockbits: int, rand: nat -> Draw, i: nat, c: Cache)
    requires i < |trace| && size >= 1 && Valid(c, size) && !policy.CLOCK?
    ensures Access(policy, trace, size, clockbits, rand, i, c).ref == Touch(c.ref, trace[i], clockbits)
  {
  }
}

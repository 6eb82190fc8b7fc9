/**
 The lottery of projects/scheduling-xv6-lottery/src/proc.c: the linear congruential generator
 `random`, the rejection loop of `getwinner`, and the ticket scan of `scheduler` up to the
 first dispatch of a pass. `long` is 32 bits wide there.
 */
module Lottery {
  import opened Wrappers
  import opened ProcTypes

  const MULTIPLIER: int := 1103515245
  const INCREMENT: int := 12345
  const NUM_RAND: int := 0x8000_0000
  const WORD: int := 0x1_0000_0000

  function Pow2(k: nat): (p: nat)
    ensures p >= 1
  {
    if k == 0 then 1 else 2 * Pow2(k - 1)
  }

  lemma NumRandIsPow2()
    ensures NUM_RAND == Pow2(31)
  {
    assert Pow2(8) == 256;
    assert Pow2(16) == 65536;
    assert Pow2(24) == 0x100_0000;
  }

  // ---------------------------------------------------------------- the generator

  /** The recurrence that the comment on `random` promises. */
  function NextVal(val: int): (v: int)
    ensures 0 <= v < NUM_RAND
  {
    (MULTIPLIER * val + INCREMENT) % NUM_RAND
  }

  /** The n-th value drawn from generator state `val`. */
  function Draw(val: int, n: nat): (v: int)
    ensures n > 0 || 0 <= val < NUM_RAND ==> 0 <= v < NUM_RAND
  {
    if n == 0 then val else NextVal(Draw(val, n - 1))
  }

  /** The first values from the initial state. */
  lemma FirstDraws()
    ensures Draw(1, 1) == 1103527590 && Draw(1, 2) == 377401575
  {
    assert Draw(1, 1) == NextVal(1) && Draw(1, 2) == NextVal(1103527590);
  }

  /** The same recurrence over the unbounded integers. */
  ghost function Orbit(x: int, n: nat): int {
    if n == 0 then x else MULTIPLIER * Orbit(x, n - 1) + INCREMENT
  }

  lemma CongruentMod(x: int, y: int, q: int)
    requires x == y + NUM_RAND * q
    ensures x % NUM_RAND == y % NUM_RAND
  {
  }

  lemma {:induction false} DrawIsOrbit(val: int, n: nat)
    requires 0 <= val < NUM_RAND
    ensures Draw(val, n) == Orbit(val, n) % NUM_RAND
  {
    if n > 0 {
      DrawIsOrbit(val, n - 1);
      var o, d := Orbit(val, n - 1), Draw(val, n - 1);
      var q := o / NUM_RAND;
      assert o == d + NUM_RAND * q;
      var x, y := MULTIPLIER * d + INCREMENT, MULTIPLIER * o + INCREMENT;
      assert y == x + NUM_RAND * (MULTIPLIER * q);
      CongruentMod(y, x, MULTIPLIER * q);
    }
  }

  lemma {:induction false} OrbitAdd(x: int, m: nat, n: nat)
    ensures Orbit(x, m + n) == Orbit(Orbit(x, m), n)
  {
    if n > 0 {
      OrbitAdd(x, m, n - 1);
    }
  }

  /** 2^k steps are again affine, x -> m x + c, with m = 1 mod 2^(k+2) and c an odd multiple of 2^k. */
  lemma {:induction false} DoublingSteps(k: nat) returns (m: int, u: int, v: int)
    ensures m == 1 + Pow2(k) * (4 * u)
    ensures forall x: int :: Orbit(x, Pow2(k)) == m * x + Pow2(k) * (2 * v + 1)
  {
    if k == 0 {
      m, u, v := MULTIPLIER, 275878811, 6172;
      forall x: int ensures Orbit(x, 1) == m * x + (2 * v + 1) {
        assert Orbit(x, 1) == MULTIPLIER * Orbit(x, 0) + INCREMENT;
      }
    } else {
      var m', u', v' := DoublingSteps(k - 1);
      var p := Pow2(k - 1);
      var c := p * (2 * v' + 1);
      m := m' * m';
      // (1 + 4pu)^2 == 1 + 2p * 4 * (u + 2pu^2), and c (m + 1) == 2p * (2v + 1)(2pu + 1)
      u := u' + 2 * p * u' * u';
      v := (2 * v' + 1) * (p * u') + v';
      SquareShape(p, u');
      ProductShape(p, u', v');
      forall x: int ensures Orbit(x, Pow2(k)) == m * x + Pow2(k) * (2 * v + 1) {
        OrbitAdd(x, p, p);
        assert m' * (m' * x + c) + c == m' * m' * x + c * (m' + 1) by { Distribute(m', x, c); }
      }
    }
  }

  lemma Distribute(m: int, x: int, c: int)
    ensures m * (m * x + c) + c == m * m * x + c * (m + 1)
  {
  }

  lemma SquareShape(p: int, u: int)
    ensures (1 + p * (4 * u)) * (1 + p * (4 * u)) == 1 + (2 * p) * (4 * (u + 2 * p * u * u))
  {
    var a := p * u;
    assert p * (4 * u) == 4 * a;
    assert (1 + 4 * a) * (1 + 4 * a) == 1 + 8 * a + 16 * a * a;
    assert (2 * p) * (4 * (u + 2 * p * u * u)) == 8 * (p * u) + 16 * (p * (p * u * u));
    assert p * (p * u * u) == a * a;
  }

  lemma ProductShape(p: int, u: int, v: int)
    ensures p * (2 * v + 1) * (1 + p * (4 * u) + 1) == (2 * p) * (2 * ((2 * v + 1) * (p * u) + v) + 1)
  {
    var a, b := p * u, 2 * v + 1;
    assert p * (4 * u) == 4 * a;
    assert 2 * (b * a + v) + 1 == b * (2 * a + 1);
    assert p * b * (4 * a + 2) == (2 * p) * (b * (2 * a + 1));
  }

  lemma Advance(p: int, u: int, v: int, x: int, w: int)
    ensures (1 + p * (4 * u)) * (x + p * w) + p * (2 * v + 1) == x + p * (w + 4 * (u * (x + p * w)) + 2 * v + 1)
  {
    var y := x + p * w;
    assert p * (4 * u) * y == p * (4 * (u * y));
    assert p * w + p * (4 * (u * y)) + p * (2 * v + 1) == p * (w + 4 * (u * y) + 2 * v + 1);
  }

  /** Another 2^k steps move the state by an odd multiple of 2^k. */
  lemma MovedOn(x: int, k: nat, w: int) returns (w': int)
    ensures Orbit(x + Pow2(k) * w, Pow2(k)) == x + Pow2(k) * w' && w' % 2 == (w + 1) % 2
  {
    hide Orbit, Pow2;
    var _, u, v := DoublingSteps(k);
    Advance(Pow2(k), u, v, x, w);
    var e := u * (x + Pow2(k) * w);
    w' := w + 4 * e + 2 * v + 1;
    Parity(w, 2 * e + v);
  }

  lemma Parity(w: int, h: int)
    ensures (w + 2 * h + 1) % 2 == (w + 1) % 2
  {
  }

  /** After m * 2^k steps the state has moved by 2^k times a number of the parity of m. */
  lemma {:induction false} OddMultiples(x: int, k: nat, m: nat) returns (w: int)
    ensures Orbit(x, m * Pow2(k)) == x + Pow2(k) * w && w % 2 == m % 2
  {
    hide Orbit, Pow2;
    var p := Pow2(k);
    if m == 0 {
      w := 0;
      OrbitStart(x);
    } else {
      var w' := OddMultiples(x, k, m - 1);
      OneMore(m, p);
      OrbitAdd(x, (m - 1) * p, p);
      w := MovedOn(x, k, w');
    }
  }

  lemma OneMore(m: nat, p: nat)
    requires m > 0
    ensures m * p == (m - 1) * p + p && (m - 1) * p >= 0
  {
  }

  lemma OrbitStart(x: int)
    ensures Orbit(x, 0) == x
  {
  }

  lemma {:induction false} OddPart(n: nat) returns (m: nat, k: nat)
    requires n > 0
    ensures n == m * Pow2(k) && m % 2 == 1
  {
    if n % 2 == 1 {
      m, k := n, 0;
    } else {
      m, k := OddPart(n / 2);
      assert m * (2 * Pow2(k)) == 2 * (m * Pow2(k));
      k := k + 1;
    }
  }

  lemma {:induction false} Pow2Split(i: nat, k: nat)
    requires k <= i
    ensures Pow2(i) == Pow2(k) * Pow2(i - k)
  {
    hide Pow2;
    if i > k {
      Pow2Split(i - 1, k);
      Pow2Next(i - 1);
      Pow2Next(i - k - 1);
      Twice(Pow2(k), Pow2(i - k - 1));
    } else {
      PowZero();
    }
  }

  lemma Pow2Next(k: nat)
    ensures Pow2(k + 1) == 2 * Pow2(k)
  {
  }

  lemma PowZero()
    ensures Pow2(0) == 1
  {
  }

  lemma Twice(a: int, b: int)
    ensures a * (2 * b) == 2 * (a * b)
  {
  }

  /** An odd multiple of 2^k is a multiple of 2^31 only if k >= 31. */
  lemma OddMultipleOfRange(k: nat, w: int, q: int)
    requires w % 2 == 1 && Pow2(k) * w == NUM_RAND * q
    ensures k >= 31
  {
    hide Pow2;
    if k < 31 {
      NumRandIsPow2();
      HalfOfRange(k);
      var p, h := Pow2(k), Pow2(30 - k);
      assert (2 * (p * h)) * q == p * (2 * (h * q)) by { Regroup(p, h, q); }
      Cancel(p, w, 2 * (h * q));
    }
  }

  lemma HalfOfRange(k: nat)
    requires k < 31
    ensures Pow2(31) == 2 * (Pow2(k) * Pow2(30 - k))
  {
    Pow2Split(30, k);
  }

  lemma Regroup(p: int, h: int, q: int)
    ensures (2 * (p * h)) * q == p * (2 * (h * q))
  {
  }

  lemma Cancel(p: int, a: int, b: int)
    requires p >= 1 && p * a == p * b
    ensures a == b
  {
    assert p * (a - b) == 0;
  }

  /** Full period: the generator returns to a state exactly after the multiples of 2^31 steps. */
  lemma FullPeriod(val: int, n: nat)
    requires 0 <= val < NUM_RAND
    ensures Draw(val, n) == val <==> n % NUM_RAND == 0
  {
    hide Orbit, Pow2, Draw;
    if n > 0 {
      var m, k := OddPart(n);
      var w := OddMultiples(val, k, m);
      DrawIsOrbit(val, n);
      Commute(m, Pow2(k));
      WrapsAround(n, k, m, 0);
      WrapsAround(Orbit(val, n), k, w, val);
    } else {
      DrawStart(val);
    }
  }

  lemma Commute(a: int, b: int)
    ensures a * b == b * a
  {
  }

  lemma DrawStart(val: int)
    ensures Draw(val, 0) == val
  {
  }

  /** An odd multiple of 2^k vanishes modulo 2^31 exactly when k >= 31. */
  lemma WrapsAround(o: int, k: nat, w: int, val: int)
    requires w % 2 == 1 && 0 <= val < NUM_RAND && o == val + Pow2(k) * w
    ensures o % NUM_RAND == val <==> k >= 31
  {
    hide Pow2;
    if k >= 31 {
      NumRandIsPow2();
      Pow2Split(k, 31);
      MultipleOfRange(Pow2(k - 31), w);
      CongruentMod(o, val, Pow2(k - 31) * w);
    } else if o % NUM_RAND == val {
      OddMultipleOfRange(k, w, o / NUM_RAND);
    }
  }

  lemma MultipleOfRange(h: int, w: int)
    ensures NUM_RAND * h * w == NUM_RAND * (h * w)
  {
  }

  lemma {:induction false} DrawAdd(val: int, m: nat, n: nat)
    ensures Draw(val, m + n) == Draw(Draw(val, m), n)
  {
    if n > 0 {
      DrawAdd(val, m, n - 1);
    }
  }

  /** No value is repeated before 2^31 draws. */
  lemma DrawsDiffer(val: int, i: nat, j: nat)
    requires 0 <= val < NUM_RAND && i < j < i + NUM_RAND
    ensures Draw(val, i) != Draw(val, j)
  {
    hide Draw;
    DrawAdd(val, i, j - i);
    FullPeriod(Draw(val, i), j - i);
  }

  // ---------------------------------------------------------------- getwinner

  function BinSize(total: nat): int {
    NUM_RAND / (total + 1)
  }

  function Defect(total: nat): int {
    NUM_RAND % (total + 1)
  }

  /** A raw value the rejection loop keeps. */
  predicate Accepted(total: nat, x: int) {
    x < NUM_RAND - Defect(total)
  }

  lemma Bins(total: nat)
    requires total < NUM_RAND
    ensures BinSize(total) >= 1 && 0 <= Defect(total) <= total
    ensures NUM_RAND - Defect(total) == (total + 1) * BinSize(total)
  {
  }

  ghost predicate Between(lo: int, x: int, hi: int) {
    lo <= x < hi
  }

  ghost function Interval(lo: int, hi: int): set<int> {
    set x | lo <= x < hi && Between(lo, x, hi)
  }

  lemma {:induction false} IntervalSize(lo: int, hi: int)
    requires lo <= hi
    ensures |Interval(lo, hi)| == hi - lo
    decreases hi - lo
  {
    if lo < hi {
      IntervalSize(lo, hi - 1);
      assert Interval(lo, hi) == Interval(lo, hi - 1) + {hi - 1};
    }
  }

  /** The values drawn in rounds 1 to n. */
  ghost function Drawn(val: int, n: nat): set<int> {
    if n == 0 then {} else Drawn(val, n - 1) + {Draw(val, n)}
  }

  lemma {:induction false} DrawnHas(val: int, n: nat, v: int)
    requires v in Drawn(val, n)
    ensures exists k :: 1 <= k <= n && v == Draw(val, k)
  {
    if v != Draw(val, n) {
      DrawnHas(val, n - 1, v);
    }
  }

  lemma NewValue(val: int, n: nat)
    requires 0 <= val < NUM_RAND && 0 < n <= NUM_RAND
    ensures Draw(val, n) !in Drawn(val, n - 1)
  {
    hide Draw, Drawn;
    if Draw(val, n) in Drawn(val, n - 1) {
      DrawnHas(val, n - 1, Draw(val, n));
      var k :| 1 <= k <= n - 1 && Draw(val, n) == Draw(val, k);
      DrawsDiffer(val, k, n);
    }
  }

  lemma {:induction false} DrawnSize(val: int, n: nat)
    requires 0 <= val < NUM_RAND && n <= NUM_RAND
    ensures |Drawn(val, n)| == n
  {
    if n > 0 {
      DrawnSize(val, n - 1);
      NewValue(val, n);
    }
  }

  lemma {:induction false} AllRejected(val: int, total: nat, n: nat)
    requires forall k :: 1 <= k <= n ==> !Accepted(total, Draw(val, k))
    ensures Drawn(val, n) <= Interval(NUM_RAND - Defect(total), NUM_RAND)
  {
    if n > 0 {
      AllRejected(val, total, n - 1);
    }
  }

  /** Whatever the generator state, at most `defect` draws in a row are rejected. */
  lemma FewRejections(val: int, total: nat, n: nat)
    requires 0 <= val < NUM_RAND && total < NUM_RAND
    requires forall k :: 1 <= k <= n ==> !Accepted(total, Draw(val, k))
    ensures n <= Defect(total)
  {
    hide Draw, Accepted;
    Bins(total);
    var m := if n <= NUM_RAND then n else NUM_RAND;
    AllRejected(val, total, m);
    DrawnSize(val, m);
    var rejected := Interval(NUM_RAND - Defect(total), NUM_RAND);
    IntervalSize(NUM_RAND - Defect(total), NUM_RAND);
    assert rejected == Drawn(val, m) + (rejected - Drawn(val, m));
  }

  /** Unsigned 32-bit arithmetic. */
  function Wrap(x: int): (w: int)
    ensures 0 <= w < WORD
  {
    x % WORD
  }

  /** w & 0x7fffffff: bit 31 is cleared. */
  function LowBits(w: int): (v: int)
    requires 0 <= w < WORD
    ensures 0 <= v < NUM_RAND
  {
    if w >= NUM_RAND then w - NUM_RAND else w
  }

  /** Wrapping at 32 bits twice does not show in the low 31 bits. */
  lemma WrapsAway(x: int)
    ensures LowBits(Wrap(Wrap(x) + INCREMENT)) == (x + INCREMENT) % NUM_RAND
  {
    var p, q := Wrap(x), Wrap(Wrap(x) + INCREMENT);
    assert x == p + WORD * (x / WORD);
    assert p + INCREMENT == q + WORD * ((p + INCREMENT) / WORD);
    CongruentMod(x + INCREMENT, q, 2 * (x / WORD) + 2 * ((p + INCREMENT) / WORD));
  }

  /** The generator state `val` and the functions that update it. */
  class Generator {
    var val: int

    constructor ()
      ensures val == 1
    {
      val := 1;
    }

    /** `random`: product and sum wrap at 32 bits, then the mask 0x7fffffff keeps the low 31. */
    method Random() returns (v: int)
      modifies this
      ensures v == val == NextVal(old(val))
    {
      var product := Wrap(MULTIPLIER * val);
      var sum := Wrap(product + INCREMENT);
      WrapsAway(MULTIPLIER * val);
      v := LowBits(sum);
      val := v;
    }

    /** Draws until a value is accepted; the loop ends within defect + 1 draws. */
    method GetWinner(totaltickets: nat) returns (winner: int, ghost draws: nat)
      requires totaltickets < NUM_RAND && 0 <= val < NUM_RAND
      modifies this
      ensures 1 <= draws <= Defect(totaltickets) + 1
      ensures val == Draw(old(val), draws) && Accepted(totaltickets, val) && 0 <= val < NUM_RAND
      ensures forall k :: 1 <= k < draws ==> !Accepted(totaltickets, Draw(old(val), k))
      ensures winner == val / BinSize(totaltickets) && 0 <= winner <= totaltickets
    {
      var numBins := totaltickets + 1;
      var binSize := NUM_RAND / numBins;
      var defect := NUM_RAND % numBins;
      Bins(totaltickets);
      var x := Random();
      draws := 1;
      while NUM_RAND - defect <= x
        invariant 1 <= draws <= defect + 1
        invariant x == val == Draw(old(val), draws)
        invariant forall k :: 1 <= k < draws ==> !Accepted(totaltickets, Draw(old(val), k))
        decreases defect + 1 - draws
      {
        FewRejections(old(val), totaltickets, draws);
        x := Random();
        draws := draws + 1;
      }
      winner := x / binSize;
      WinnerInRange(totaltickets, x);
    }
  }

  lemma WinnerInRange(total: nat, x: int)
    requires total < NUM_RAND && 0 <= x && Accepted(total, x)
    ensures 0 <= x / BinSize(total) <= total
  {
    Bins(total);
    InBin(x, BinSize(total), 0, total + 1);
  }

  lemma AtLeast(x: int, size: int, lo: int)
    requires size >= 1
    ensures lo <= x / size <==> lo * size <= x
  {
    DivMod(x, size);
    Compare(x / size, x % size, size, lo);
  }

  lemma DivMod(x: int, size: int)
    requires size >= 1
    ensures x == x / size * size + x % size && 0 <= x % size < size
  {
  }

  lemma Compare(w: int, r: int, size: int, lo: int)
    requires 0 <= r < size
    ensures lo <= w <==> lo * size <= w * size + r
  {
    if lo <= w {
      Scale(lo, w, size);
    } else {
      Scale(w + 1, lo, size);
      assert (w + 1) * size == w * size + size;
    }
  }

  /** Bins lo to hi - 1 hold exactly the raw values from lo * size up to hi * size. */
  lemma InBin(x: int, size: int, lo: int, hi: int)
    requires size >= 1
    ensures lo <= x / size < hi <==> lo * size <= x < hi * size
  {
    AtLeast(x, size, lo);
    AtLeast(x, size, hi);
  }

  // ---------------------------------------------------------------- the ticket scan

  /** The tickets a pass counts for a slot. */
  function Share(p: Proc): int {
    if p.state == RUNNABLE then p.tickets else 0
  }

  function Total(table: seq<Proc>): nat
    requires NoDebt(table)
  {
    if table == [] then 0 else Total(table[..|table| - 1]) + Share(table[|table| - 1])
  }

  lemma {:induction false} TotalPrefix(table: seq<Proc>, i: nat)
    requires NoDebt(table) && i < |table|
    ensures Total(table[..i]) + Share(table[i]) <= Total(table)
    decreases |table|
  {
    var front := table[..|table| - 1];
    if i < |front| {
      TotalPrefix(front, i);
      assert front[..i] == table[..i];
    } else if i > 0 {
      TotalPrefix(front, i - 1);
      assert front == table[..i];
    } else {
      assert table[..0] == [] && front == [];
    }
  }

  /** The first process a pass with this winner dispatches. */
  function FirstDispatch(table: seq<Proc>, winner: int): (r: Option<nat>)
    requires NoDebt(table)
    ensures r.Some? ==> r.value < |table|
  {
    if table == [] then None else
      var front := table[..|table| - 1];
      var r := FirstDispatch(front, winner);
      if r.Some? then r
      else if table[|front|].state == RUNNABLE && Total(table) > winner then Some(|front|)
      else None
  }

  /** Process p wins exactly on the tickets numbered from the total before it up to its own share. */
  lemma {:induction false} WinsOnItsTickets(table: seq<Proc>, winner: int, p: nat)
    requires NoDebt(table) && winner >= 0
    ensures FirstDispatch(table, winner) == Some(p) <==>
            p < |table| && Total(table[..p]) <= winner < Total(table[..p]) + Share(table[p])
    ensures FirstDispatch(table, winner).None? <==> Total(table) <= winner
  {
    if table != [] {
      var last := |table| - 1;
      var front := table[..last];
      WinsOnItsTickets(front, winner, p);
      if p < last {
        assert front[..p] == table[..p];
        TotalPrefix(front, p);
      } else if p == last {
        assert table[..p] == front;
      }
    }
  }

  /** The raw values for which a pass dispatches p first; None stands for nobody. */
  ghost function RawValues(table: seq<Proc>, p: Option<nat>): set<int>
    requires NoDebt(table)
  {
    set x | 0 <= x < NUM_RAND && Accepted(Total(table), x) && FirstDispatch(table, x / BinSize(Total(table))) == p
  }

  /** The raw values of the tickets numbered lo to hi - 1. */
  lemma RawValuesAre(table: seq<Proc>, p: Option<nat>, lo: nat, hi: nat)
    requires NoDebt(table) && Total(table) < NUM_RAND && lo <= hi <= Total(table) + 1
    requires forall w :: 0 <= w <= Total(table) ==> (FirstDispatch(table, w) == p <==> lo <= w < hi)
    ensures |RawValues(table, p)| == (hi - lo) * BinSize(Total(table))
  {
    hide FirstDispatch, Total, RawValues, BinSize;
    var size := BinSize(Total(table));
    Bins(Total(table));
    Scale(lo, hi, size);
    var a, b := lo * size, hi * size;
    forall x ensures x in RawValues(table, p) <==> x in Interval(a, b) {
      RawValueIs(table, p, lo, hi, x);
    }
    assert RawValues(table, p) == Interval(a, b);
    IntervalSize(a, b);
  }

  lemma RawValueIs(table: seq<Proc>, p: Option<nat>, lo: nat, hi: nat, x: int)
    requires NoDebt(table) && Total(table) < NUM_RAND && lo <= hi <= Total(table) + 1
    requires forall w :: 0 <= w <= Total(table) ==> (FirstDispatch(table, w) == p <==> lo <= w < hi)
    ensures x in RawValues(table, p) <==> lo * BinSize(Total(table)) <= x < hi * BinSize(Total(table))
  {
    hide FirstDispatch, Total;
    var total := Total(table);
    var size := BinSize(total);
    Bins(total);
    Scale(0, lo, size);
    Scale(hi, total + 1, size);
    InBin(x, size, lo, hi);
    InBin(x, size, 0, total + 1);
  }

  /** Exact proportional share: tickets(p) * bin_size raw values dispatch p first. */
  lemma ProportionalShare(table: seq<Proc>, p: nat)
    requires NoDebt(table) && Total(table) < NUM_RAND && p < |table|
    ensures |RawValues(table, Some(p))| == Share(table[p]) * BinSize(Total(table))
  {
    hide FirstDispatch, Total, RawValues;
    TotalPrefix(table, p);
    var lo := Total(table[..p]);
    var hi := lo + Share(table[p]);
    forall w | 0 <= w <= Total(table) ensures FirstDispatch(table, w) == Some(p) <==> lo <= w < hi {
      WinsOnItsTickets(table, w, p);
    }
    RawValuesAre(table, Some(p), lo, hi);
  }

  /** Exactly bin_size accepted values dispatch nobody. */
  lemma NobodysShare(table: seq<Proc>)
    requires NoDebt(table) && Total(table) < NUM_RAND
    ensures |RawValues(table, None)| == BinSize(Total(table))
  {
    hide FirstDispatch, Total, RawValues;
    var total := Total(table);
    forall w | 0 <= w <= total ensures FirstDispatch(table, w) == None <==> total <= w < total + 1 {
      WinsOnItsTickets(table, w, 0);
    }
    RawValuesAre(table, None, total, total + 1);
  }

  // ---------------------------------------------------------------- a whole period of the generator

  /** Over a period the generator delivers every value once. */
  lemma EveryValueOnce(val: int)
    requires 0 <= val < NUM_RAND
    ensures Drawn(val, NUM_RAND) == Interval(0, NUM_RAND)
  {
    hide Drawn, Interval;
    DrawnSize(val, NUM_RAND);
    DrawnInRange(val, NUM_RAND);
    IntervalSize(0, NUM_RAND);
    FullSubset(Drawn(val, NUM_RAND), Interval(0, NUM_RAND));
  }

  lemma {:induction false} DrawnInRange(val: int, n: nat)
    requires 0 <= val < NUM_RAND
    ensures Drawn(val, n) <= Interval(0, NUM_RAND)
  {
    if n > 0 { DrawnInRange(val, n - 1); }
  }

  lemma FullSubset(a: set<int>, b: set<int>)
    requires a <= b && |a| == |b|
    ensures a == b
  {
    assert b == a + (b - a);
  }

  /** How many of the draws 1 to n fall into `wins`. */
  ghost function Favourable(val: int, n: nat, wins: set<int>): nat {
    if n == 0 then 0 else Favourable(val, n - 1, wins) + if Draw(val, n) in wins then 1 else 0
  }

  /** No value is drawn twice within a period, so favourable draws are as many as favourable values drawn. */
  lemma {:induction false} FavourableValues(val: int, n: nat, wins: set<int>)
    requires 0 <= val < NUM_RAND && n <= NUM_RAND
    ensures Favourable(val, n, wins) == |Drawn(val, n) * wins|
  {
    hide Draw;
    if n > 0 {
      FavourableValues(val, n - 1, wins);
      NewValue(val, n);
      OneMoreWins(Drawn(val, n - 1), Draw(val, n), wins);
    }
  }

  lemma OneMoreWins(s: set<int>, v: int, wins: set<int>)
    requires v !in s
    ensures |(s + {v}) * wins| == |s * wins| + if v in wins then 1 else 0
  {
    if v in wins {
      assert (s + {v}) * wins == s * wins + {v};
    } else {
      assert (s + {v}) * wins == s * wins;
    }
  }

  /** Among any 2^31 consecutive draws exactly tickets(p) * bin_size dispatch p first. */
  lemma ShareOfAPeriod(val: int, table: seq<Proc>, p: nat)
    requires 0 <= val < NUM_RAND && NoDebt(table) && Total(table) < NUM_RAND && p < |table|
    ensures Favourable(val, NUM_RAND, RawValues(table, Some(p))) == Share(table[p]) * BinSize(Total(table))
  {
    hide Favourable, Drawn, Total, FirstDispatch;
    var wins := RawValues(table, Some(p));
    FavourableValues(val, NUM_RAND, wins);
    EveryValueOnce(val);
    ProportionalShare(table, p);
    assert Interval(0, NUM_RAND) * wins == wins;
  }

  lemma Scale(a: int, b: int, size: int)
    requires a <= b && size >= 1
    ensures a * size <= b * size && b * size - a * size == (b - a) * size
  {
  }

  /** One pass of `scheduler` up to its first dispatch. */
  method Schedule(table: seq<Proc>, gen: Generator) returns (dispatched: Option<nat>, ghost winner: int)
    requires NoDebt(table) && Total(table) < NUM_RAND
    requires 0 <= gen.val < NUM_RAND
    modifies gen
    ensures 0 <= gen.val < NUM_RAND && gen.val in RawValues(table, dispatched)
    ensures dispatched == FirstDispatch(table, winner) && winner == gen.val / BinSize(Total(table))
  {
    var totaltickets := 0;
    for i := 0 to |table|
      invariant totaltickets == Total(table[..i])
      invariant gen.val == old(gen.val)
    {
      assert table[..i + 1][..i] == table[..i];
      if table[i].state == RUNNABLE {
        totaltickets := totaltickets + table[i].tickets;
      }
    }
    assert table[..|table|] == table;
    var w, _ := gen.GetWinner(totaltickets);
    winner := w;
    var counter := 0;
    dispatched := None;
    for i := 0 to |table|
      invariant counter == Total(table[..i])
      invariant FirstDispatch(table[..i], w) == None
    {
      assert table[..i + 1][..i] == table[..i];
      if table[i].state != RUNNABLE {
        continue;
      }
      counter := counter + table[i].tickets;
      if counter <= w {
        continue;
      }
      dispatched := Some(i);
      WinsOnItsTickets(table[..i], w, i);
      TotalPrefix(table, i);
      WinsOnItsTickets(table, w, i);
      return;
    }
    assert table[..|table|] == table;
  }
}

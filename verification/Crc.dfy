/**
 The bitwise CRC-16 dividers of 45/crc_orig.c and 45/crc.c, generator x^16 + x^12 + x^5 + 1
 (ITU-T Recommendation V.41). Registers and messages are bit sequences, highest bit first:
 `c << 1` is c[1..] + [false], `c & 0x8000` is c[0], and adding 1 after a shift sets the
 last bit. The loops are in CrcLoops.dfy.
 */
module Crc {

  /** A 16-bit register. */
  type Reg = c: seq<bool> | |c| == 16 witness seq(16, _ => false)

  function Zeros(n: nat): (z: seq<bool>)
    ensures |z| == n
  {
    seq(n, _ => false)
  }

  function Ones(n: nat): (z: seq<bool>)
    ensures |z| == n
  {
    seq(n, _ => true)
  }

  const ZERO: Reg := Zeros(16)

  /** 0x1021 */
  const POLY: Reg := [false, false, false, true, false, false, false, false,
                      false, false, true, false, false, false, false, true]

  function Xor(m: seq<bool>, k: seq<bool>): (r: seq<bool>)
    requires |m| == |k|
    ensures |r| == |m|
  {
    seq(|m|, i requires 0 <= i < |m| => m[i] != k[i])
  }

  // ---------------------------------------------------------------- the two update rules

  /** One turn of update_good_crc: the message bit is shifted in at the bottom. */
  function GoodStep(c: Reg, b: bool): Reg {
    var d := c[1..] + [b];
    if c[0] then Xor(d, POLY) else d
  }

  /** One turn of update_bad_crc: the message bit is added to the top of the register. */
  function BadStep(c: Reg, b: bool): Reg {
    var d := c[1..] + [false];
    if c[0] != b then Xor(d, POLY) else d
  }

  function Good(c: Reg, m: seq<bool>): Reg {
    if m == [] then c else GoodStep(Good(c, m[..|m| - 1]), m[|m| - 1])
  }

  function Bad(c: Reg, m: seq<bool>): Reg {
    if m == [] then c else BadStep(Bad(c, m[..|m| - 1]), m[|m| - 1])
  }

  /** augment_message_for_good_crc: sixteen zero bits. */
  function Augment(c: Reg): Reg { Good(c, Zeros(16)) }

  /** The CRC of a message, from the initial register 0xffff. */
  function Crc16(m: seq<bool>): Reg { Augment(Good(Ones(16), m)) }

  // ---------------------------------------------------------------- linearity

  lemma StepLinear(c: Reg, d: Reg, b: bool, e: bool)
    ensures GoodStep(Xor(c, d), b != e) == Xor(GoodStep(c, b), GoodStep(d, e))
  {
  }

  lemma {:induction false} GoodLinear(c: Reg, d: Reg, m: seq<bool>, k: seq<bool>)
    requires |m| == |k|
    ensures Good(Xor(c, d), Xor(m, k)) == Xor(Good(c, m), Good(d, k))
  {
    if m != [] {
      var n := |m| - 1;
      GoodLinear(c, d, m[..n], k[..n]);
      assert Xor(m, k)[..n] == Xor(m[..n], k[..n]);
      StepLinear(Good(c, m[..n]), Good(d, k[..n]), m[n], k[n]);
    }
  }

  lemma {:induction false} GoodAppend(c: Reg, m: seq<bool>, k: seq<bool>)
    ensures Good(c, m + k) == Good(Good(c, m), k)
  {
    if k == [] {
      assert m + k == m;
    } else {
      var n := |k| - 1;
      GoodAppend(c, m, k[..n]);
      assert (m + k)[..|m| + n] == m + k[..n];
    }
  }

  lemma OneBit(c: Reg, b: bool)
    ensures Good(c, [b]) == GoodStep(c, b)
  {
    assert [b][..0] == [];
  }

  lemma AugmentLinear(c: Reg, d: Reg)
    ensures Augment(Xor(c, d)) == Xor(Augment(c), Augment(d))
  {
    assert Xor(Zeros(16), Zeros(16)) == Zeros(16);
    GoodLinear(c, d, Zeros(16), Zeros(16));
  }

  /** At most 16 bits shifted into an empty register are simply stored: nothing is fed back yet. */
  lemma {:induction false} ShortPattern(p: seq<bool>)
    requires |p| <= 16
    ensures Good(ZERO, p) == Zeros(16 - |p|) + p
  {
    if p == [] {
      assert Zeros(16) + [] == ZERO;
    } else {
      var n := |p| - 1;
      ShortPattern(p[..n]);
      assert GoodStep(Zeros(16 - n) + p[..n], p[n]) == Zeros(15 - n) + p;
    }
  }

  // ---------------------------------------------------------------- good and bad agree

  /** Augmenting commutes with a zero bit. */
  lemma AugmentShift(c: Reg)
    ensures Augment(GoodStep(c, false)) == GoodStep(Augment(c), false)
  {
    hide GoodStep, Good;
    assert Zeros(16) + [false] == [false] + Zeros(16);
    GoodAppend(c, Zeros(16), [false]);
    GoodAppend(c, [false], Zeros(16));
    OneBit(c, false);
    OneBit(Augment(c), false);
  }

  /** The register with only the lowest bit possibly set. */
  function Low(b: bool): Reg { Zeros(15) + [b] }

  /** x^16 modulo the generator is the generator's low part. */
  lemma AugmentLow(b: bool)
    ensures Augment(Low(b)) == if b then POLY else ZERO
  {
    hide Good;
    var p := [b] + Zeros(15);
    ShortPattern([b]);
    ShortPattern(p);
    assert Zeros(0) + p == p;
    GoodAppend(ZERO, [b], Zeros(15));
    assert Zeros(16) == Zeros(15) + [false];
    GoodAppend(Low(b), Zeros(15), [false]);
    OneBit(p, false);
    assert GoodStep(p, false) == if b then POLY else ZERO;
  }

  lemma StepSplit(c: Reg, b: bool)
    ensures GoodStep(c, b) == Xor(GoodStep(c, false), Low(b))
    ensures BadStep(c, b) == Xor(GoodStep(c, false), if b then POLY else ZERO)
  {
  }

  lemma AugmentStep(c: Reg, b: bool)
    ensures Augment(GoodStep(c, b)) == BadStep(Augment(c), b)
  {
    hide GoodStep, BadStep, Augment, Xor;
    StepSplit(c, b);
    AugmentLinear(GoodStep(c, false), Low(b));
    AugmentShift(c);
    AugmentLow(b);
    StepSplit(Augment(c), b);
  }

  /** For every register and message, augmenting the good result is the bad update of the augmented register. */
  lemma {:induction false} FormsAgree(c: Reg, m: seq<bool>)
    ensures Augment(Good(c, m)) == Bad(Augment(c), m)
  {
    hide GoodStep, BadStep, Augment;
    if m != [] {
      var n := |m| - 1;
      FormsAgree(c, m[..n]);
      AugmentStep(Good(c, m[..n]), m[n]);
    }
  }

  // ---------------------------------------------------------------- error detection

  /** The difference of two CRCs is the remainder of the difference of the messages. */
  lemma Difference(m: seq<bool>, k: seq<bool>)
    requires |m| == |k|
    ensures Xor(Crc16(m), Crc16(k)) == Augment(Good(ZERO, Xor(m, k)))
    ensures Crc16(m) == Crc16(k) ==> Augment(Good(ZERO, Xor(m, k))) == ZERO
  {
    hide Good, Augment;
    AugmentLinear(Good(Ones(16), m), Good(Ones(16), k));
    GoodLinear(Ones(16), Ones(16), m, k);
    assert Xor(Ones(16), Ones(16)) == ZERO;
    assert forall c: Reg :: Xor(c, c) == ZERO;
  }

  /** The generator's constant term is 1, so a zero bit never erases a nonzero register. */
  lemma ZeroStepInjective(c: Reg)
    requires GoodStep(c, false) == ZERO
    ensures c == ZERO
  {
    var shifted := c[1..] + [false];
    assert Xor(shifted, POLY)[15];
    assert !c[0] ==> c == [false] + GoodStep(c, false)[..15];
  }

  lemma {:induction false} ZerosKeepNonzero(c: Reg, n: nat)
    requires c != ZERO
    ensures Good(c, Zeros(n)) != ZERO
  {
    hide GoodStep;
    if n > 0 {
      ZerosKeepNonzero(c, n - 1);
      assert Zeros(n)[..n - 1] == Zeros(n - 1);
      if GoodStep(Good(c, Zeros(n - 1)), false) == ZERO {
        ZeroStepInjective(Good(c, Zeros(n - 1)));
      }
    }
  }

  lemma {:induction false} NothingFromNothing(n: nat)
    ensures Good(ZERO, Zeros(n)) == ZERO
  {
    if n > 0 {
      NothingFromNothing(n - 1);
      assert Zeros(n)[..n - 1] == Zeros(n - 1);
    }
  }

  /** A burst: the messages differ, and only within the window of `w` bits from position `i`. */
  ghost predicate Burst(m: seq<bool>, k: seq<bool>, i: nat, w: nat) {
    && |m| == |k| && m != k && i + w <= |m|
    && forall j :: 0 <= j < |m| && !(i <= j < i + w) ==> m[j] == k[j]
  }

  /** Every burst of at most 16 bits is detected. */
  lemma BurstDetected(m: seq<bool>, k: seq<bool>, i: nat, w: nat)
    requires Burst(m, k, i, w) && w <= 16
    ensures Crc16(m) != Crc16(k)
  {
    hide Good, Crc16;
    var d := Xor(m, k);
    var p, rest := d[i..i + w], |m| - i - w;
    assert d == Zeros(i) + p + Zeros(rest);
    GoodAppend(ZERO, Zeros(i), p);
    GoodAppend(ZERO, Zeros(i) + p, Zeros(rest));
    NothingFromNothing(i);
    ShortPattern(p);
    var j :| 0 <= j < |m| && m[j] != k[j];
    assert (Zeros(16 - w) + p)[16 - w + j - i] == d[j];
    ZerosKeepNonzero(Good(ZERO, p), rest);
    ZerosKeepNonzero(Good(ZERO, d), 16);
    Difference(m, k);
  }

  /** Whether a bit sequence has an odd number of ones. */
  function OddOnes(m: seq<bool>): bool {
    if m == [] then false else OddOnes(m[..|m| - 1]) != m[|m| - 1]
  }

  lemma {:induction false} OddOnesXor(m: seq<bool>, k: seq<bool>)
    requires |m| == |k|
    ensures OddOnes(Xor(m, k)) == (OddOnes(m) != OddOnes(k))
  {
    if m != [] {
      var n := |m| - 1;
      OddOnesXor(m[..n], k[..n]);
      assert Xor(m, k)[..n] == Xor(m[..n], k[..n]);
    }
  }

  lemma {:induction false} OddOnesTail(m: seq<bool>)
    requires m != []
    ensures OddOnes(m[1..]) == (OddOnes(m) != m[0])
  {
    if |m| == 1 {
      assert m[..0] == [] && m[1..] == [];
    } else {
      var n := |m| - 1;
      OddOnesTail(m[..n]);
      assert m[..n][1..] == m[1..][..n - 1];
    }
  }

  lemma PolyIsOdd()
    ensures OddOnes(POLY)
  {
    assert POLY[..15] == Zeros(3) + [true] + Zeros(6) + [true] + Zeros(4);
    var a := Zeros(3) + [true];
    var b := a + Zeros(6) + [true];
    assert a[..3] == Zeros(3) && b[..10] == a + Zeros(6);
    NoOnes(Zeros(0), 3);
    assert Zeros(0) + Zeros(3) == Zeros(3);
    NoOnes(a, 6);
    NoOnes(b, 4);
  }

  lemma {:induction false} NoOnes(m: seq<bool>, n: nat)
    ensures OddOnes(m + Zeros(n)) == OddOnes(m)
  {
    if n == 0 {
      assert m + Zeros(0) == m;
    } else {
      NoOnes(m, n - 1);
      assert (m + Zeros(n))[..|m| + n - 1] == m + Zeros(n - 1);
    }
  }

  lemma ParityStep(c: Reg, b: bool)
    ensures OddOnes(GoodStep(c, b)) == (OddOnes(c) != b)
  {
    hide OddOnes;
    var d := c[1..] + [b];
    assert d[..15] == c[1..];
    OddOnesTail(c);
    OddOnesLast(d);
    OddOnesXor(d, POLY);
    PolyIsOdd();
  }

  lemma OddOnesLast(m: seq<bool>)
    requires m != []
    ensures OddOnes(m) == (OddOnes(m[..|m| - 1]) != m[|m| - 1])
  {
  }

  /** The generator has x + 1 as a factor: the register's parity is that of the message. */
  lemma {:induction false} ParityKept(c: Reg, m: seq<bool>)
    ensures OddOnes(Good(c, m)) == (OddOnes(c) != OddOnes(m))
  {
    hide GoodStep;
    if m != [] {
      ParityKept(c, m[..|m| - 1]);
      ParityStep(Good(c, m[..|m| - 1]), m[|m| - 1]);
    }
  }

  /** Every odd number of flipped bits is detected. */
  lemma OddErrorDetected(m: seq<bool>, k: seq<bool>)
    requires |m| == |k| && OddOnes(Xor(m, k))
    ensures Crc16(m) != Crc16(k)
  {
    hide Good, Crc16;
    var d := Xor(m, k);
    ParityKept(ZERO, d);
    ParityKept(Good(ZERO, d), Zeros(16));
    NoOnes([], 16);
    assert [] + Zeros(16) == Zeros(16);
    Difference(m, k);
  }

  // ---------------------------------------------------------------- the 17-bit polynomial

  /** A 32-bit register, as the build with POLY 0x11021 uses. */
  type Wide = c: seq<bool> | |c| == 32 witness seq(32, _ => false)

  /** One turn of that build: the test is still on bit 15. */
  function WideStep(c: Wide, b: bool): Wide {
    var d := c[1..] + [b];
    if c[16] then Xor(d, Zeros(15) + [true] + POLY) else d
  }

  function WideGood(c: Wide, m: seq<bool>): Wide {
    if m == [] then c else WideStep(WideGood(c, m[..|m| - 1]), m[|m| - 1])
  }

  lemma WideStepIsGoodStep(c: Reg, b: bool)
    ensures WideStep(Zeros(16) + c, b) == Zeros(16) + GoodStep(c, b)
  {
    var d := (Zeros(16) + c)[1..] + [b];
    assert d == Zeros(15) + [c[0]] + (c[1..] + [b]);
  }

  /** The bit above the register never survives: the two builds agree on every message. */
  lemma {:induction false} WideIsGood(c: Reg, m: seq<bool>)
    ensures WideGood(Zeros(16) + c, m) == Zeros(16) + Good(c, m)
  {
    hide WideStep, GoodStep;
    if m != [] {
      var n := |m| - 1;
      WideIsGood(c, m[..n]);
      WideStepIsGoodStep(Good(c, m[..n]), m[n]);
    }
  }
}

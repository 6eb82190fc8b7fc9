/**
 The CRC register as a remainder: dividing message polynomials by the generator
 x^16 + x^12 + x^5 + 1 of section 2 of ITU-T Recommendation V.41. A polynomial over two elements is the
 sequence of its coefficients, highest first.
 */
module CrcRemainder {
  import opened Crc
  import opened CrcLoops

  /** The generator's coefficient of x^e. */
  predicate Coefficient(e: int) { e == 16 || e == 12 || e == 5 || e == 0 }

  function Generator(): (g: seq<bool>)
    ensures |g| == 17 && forall i :: 0 <= i < 17 ==> g[i] == Coefficient(16 - i)
  {
    seq(17, i => Coefficient(16 - i))
  }

  lemma GeneratorIsPoly()
    ensures Generator() == [true] + POLY
  {
  }

  /** q times the generator, by shifting and adding. */
  ghost function Product(q: seq<bool>): (p: seq<bool>)
    ensures |p| == |q| + 16
  {
    if q == [] then Zeros(16)
    else
      var n := |q| - 1;
      Xor(Product(q[..n]) + [false], Zeros(n) + Multiple(q[n]))
  }

  ghost function Multiple(b: bool): (g: seq<bool>)
    ensures |g| == 17
  {
    if b then Generator() else Zeros(17)
  }

  /** `x` is q times the generator plus r. */
  ghost predicate Divides(x: seq<bool>, q: seq<bool>, r: Reg) {
    |x| == |q| + 16 && x == Xor(Product(q), Zeros(|q|) + r)
  }

  /** Reading one more bit of the dividend. */
  lemma OneBitMore(x: seq<bool>, b: bool, q: seq<bool>, r: Reg, top: bool, r': Reg)
    requires Divides(x, q, r) && r + [b] == Xor(Multiple(top), [false] + r')
    ensures Divides(x + [b], q + [top], r')
  {
    var n, p := |q|, Product(q);
    assert (q + [top])[..n] == q;
    var y := Xor(Product(q + [top]), Zeros(n + 1) + r');
    assert Product(q + [top]) == Xor(p + [false], Zeros(n) + Multiple(top));
    forall i | 0 <= i < |x| + 1 ensures (x + [b])[i] == y[i] {
      if i < n {
        assert x[i] == p[i];
      } else {
        assert (r + [b])[i - n] == Xor(Multiple(top), [false] + r')[i - n];
        assert i < |x| ==> x[i] == (p[i] != r[i - n]);
      }
    }
  }

  /** One turn of the divider subtracts the generator if the top bit is set. */
  lemma StepDivides(r: Reg, b: bool)
    ensures r + [b] == Xor(Multiple(r[0]), [false] + GoodStep(r, b))
  {
    GeneratorIsPoly();
  }

  /** The quotient bits: the top bits that the divider finds. */
  ghost function Quotient(c: Reg, m: seq<bool>): (q: seq<bool>)
    ensures |q| == |m|
  {
    if m == [] then [] else Quotient(c, m[..|m| - 1]) + [Good(c, m[..|m| - 1])[0]]
  }

  /** The good register is a remainder of the start register followed by the message. */
  lemma {:induction false} GoodDivides(c: Reg, m: seq<bool>)
    ensures Divides(c + m, Quotient(c, m), Good(c, m))
  {
    hide GoodStep, Divides, Multiple;
    if m == [] {
      assert c + m == c;
      NothingDivided(c);
    } else {
      var n := |m| - 1;
      var r := Good(c, m[..n]);
      GoodDivides(c, m[..n]);
      StepDivides(r, m[n]);
      OneBitMore(c + m[..n], m[n], Quotient(c, m[..n]), r, r[0], GoodStep(r, m[n]));
      assert c + m[..n] + [m[n]] == c + m;
    }
  }

  lemma NothingDivided(c: Reg)
    ensures Divides(c, [], c)
  {
    assert Zeros(0) + c == c;
  }

  /** There is no other quotient and remainder. */
  lemma {:induction false} RemainderUnique(c: Reg, m: seq<bool>, q: seq<bool>, r: Reg)
    requires |q| == |m| && Divides(c + m, q, r)
    ensures q == Quotient(c, m) && r == Good(c, m)
  {
    hide GoodStep, Divides, Multiple;
    if m == [] {
      assert c + m == c;
      NothingElse(c, r);
    } else {
      var n := |m| - 1;
      var d := Remaining(c + m, q, r);
      assert (c + m)[..n + 16] == c + m[..n];
      RemainderUnique(c, m[..n], q[..n], d[..16]);
      StepUnique(d, q[n], r);
      assert d[16] == m[n];
      assert q == q[..n] + [q[n]];
    }
  }

  lemma NothingElse(c: Reg, r: Reg)
    requires Divides(c, [], r)
    ensures r == c
  {
    assert Zeros(0) + r == r;
    forall i | 0 <= i < 16 ensures c[i] == r[i] { assert Xor(Product([]), Zeros(0) + r)[i] == r[i]; }
  }

  /** The 17 bits that the last subtraction started from. */
  lemma Remaining(x: seq<bool>, q: seq<bool>, r: Reg) returns (d: seq<bool>)
    requires q != [] && Divides(x, q, r)
    ensures |d| == 17 && d == Xor(Multiple(q[|q| - 1]), [false] + r) && d[16] == x[|x| - 1]
    ensures Divides(x[..|x| - 1], q[..|q| - 1], d[..16])
  {
    var n := |q| - 1;
    d := Xor(Multiple(q[n]), [false] + r);
    var p := Product(q[..n]);
    assert Product(q) == Xor(p + [false], Zeros(n) + Multiple(q[n]));
    forall i | 0 <= i < |x| ensures x[i] == ((p + [false])[i] != (Zeros(n) + d)[i]) {
      assert x[i] == Xor(Product(q), Zeros(n + 1) + r)[i];
    }
    var y := Xor(p, Zeros(n) + d[..16]);
    forall i | 0 <= i < |x| - 1 ensures x[..|x| - 1][i] == y[i] {
      assert (Zeros(n) + d)[i] == (Zeros(n) + d[..16])[i];
    }
  }

  /** The generator's leading coefficient decides what was subtracted. */
  lemma StepUnique(d: seq<bool>, top: bool, r: Reg)
    requires |d| == 17 && d == Xor(Multiple(top), [false] + r)
    ensures top == d[0] && r == GoodStep(d[..16], d[16])
  {
    GeneratorIsPoly();
    var g := GoodStep(d[..16], d[16]);
    assert d[0] == Multiple(top)[0];
    forall i | 0 <= i < 16 ensures r[i] == g[i] {
      assert d[i + 1] == (Multiple(top)[i + 1] != ([false] + r)[i + 1]);
    }
  }

  /**
   The CRC is the one remainder of the polynomial of sixteen ones, the message and sixteen zeros, divided by the
   generator.
   */
  lemma CrcIsRemainder(m: seq<bool>, q: seq<bool>, r: Reg)
    requires |q| == |m| + 16
    ensures Divides(Ones(16) + m + Zeros(16), q, r) <==>
            q == Quotient(Ones(16), m + Zeros(16)) && r == Crc16(m)
  {
    hide Divides, Good;
    var c, k := Ones(16), m + Zeros(16);
    assert c + m + Zeros(16) == c + k;
    GoodAppend(c, m, Zeros(16));
    GoodDivides(c, k);
    if Divides(c + k, q, r) { RemainderUnique(c, k, q, r); }
  }

  // ---------------------------------------------------------------- characters as numbers

  /** The number that a bit sequence stands for. */
  function Number(bits: seq<bool>): nat {
    if bits == [] then 0 else 2 * Number(bits[..|bits| - 1]) + if bits[|bits| - 1] then 1 else 0
  }

  function Power(n: nat): nat { if n == 0 then 1 else 2 * Power(n - 1) }

  lemma Twice(a: nat, b: nat)
    ensures a * (2 * b) == 2 * (a * b)
  {
  }

  lemma {:induction false} NumberAppend(a: seq<bool>, b: seq<bool>)
    ensures Number(a + b) == Number(a) * Power(|b|) + Number(b) && Number(b) < Power(|b|)
  {
    hide Number, Power;
    if b == [] {
      assert a + b == a;
      NoDigits();
    } else {
      var n := |b| - 1;
      NumberAppend(a, b[..n]);
      assert (a + b)[..|a| + n] == a + b[..n];
      LastDigit(a + b);
      LastDigit(b);
      PowerNext(n);
      Twice(Number(a), Power(n));
    }
  }

  lemma NoDigits()
    ensures Number([]) == 0 && Power(0) == 1
  {
  }

  lemma LastDigit(bits: seq<bool>)
    requires bits != []
    ensures Number(bits) == 2 * Number(bits[..|bits| - 1]) + if bits[|bits| - 1] then 1 else 0
  {
  }

  lemma PowerNext(n: nat)
    ensures Power(n + 1) == 2 * Power(n)
  {
  }

  /** The message bits of a character are the binary digits of its low byte. */
  lemma MessageBitsAreLowByte(ch: Reg)
    ensures Number(MessageBits(ch)) == Number(ch) % 256
  {
    hide Number, Power;
    NumberAppend(ch[..8], ch[8..]);
    assert ch == ch[..8] + ch[8..];
    EighthPower();
  }

  lemma EighthPower()
    ensures Power(8) == 256
  {
  }
}

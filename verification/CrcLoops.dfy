/**
 The loops of 45/crc_orig.c and 45/crc.c over the registers of Crc.dfy. A character is the
 16-bit `ch` the C code reads it into; only its low byte matters.
 */
module CrcLoops {
  import opened Crc

  /** The eight message bits of a character. */
  function MessageBits(ch: Reg): (r: seq<bool>)
    ensures |r| == 8
  {
    ch[8..]
  }

  function Message(text: seq<Reg>): seq<bool> {
    if text == [] then [] else Message(text[..|text| - 1]) + MessageBits(text[|text| - 1])
  }

  /** The global registers good_crc and bad_crc. */
  class Registers {
    var goodCrc: Reg
    var badCrc: Reg

    constructor ()
      ensures goodCrc == badCrc == Ones(16)
    {
      goodCrc, badCrc := Ones(16), Ones(16);
    }

    method UpdateGood(ch: Reg)
      modifies this`goodCrc
      ensures goodCrc == Good(old(goodCrc), MessageBits(ch))
    {
      assert MessageBits(ch)[..0] == [];
      for i := 0 to 8
        invariant goodCrc == Good(old(goodCrc), MessageBits(ch)[..i])
      {
        var xorFlag := goodCrc[0];
        goodCrc := goodCrc[1..] + [false];
        // the test bit v = 0x80 >> i
        if ch[8 + i] {
          goodCrc := goodCrc[15 := true];
        }
        if xorFlag {
          goodCrc := Xor(goodCrc, POLY);
        }
        NextBit(old(goodCrc), MessageBits(ch), i, goodCrc);
      }
      assert MessageBits(ch)[..8] == MessageBits(ch);
    }

    method AugmentGood()
      modifies this`goodCrc
      ensures goodCrc == Augment(old(goodCrc))
    {
      assert Zeros(16)[..0] == [];
      for i := 0 to 16
        invariant goodCrc == Good(old(goodCrc), Zeros(16)[..i])
      {
        var xorFlag := goodCrc[0];
        goodCrc := goodCrc[1..] + [false];
        if xorFlag {
          goodCrc := Xor(goodCrc, POLY);
        }
        NextBit(old(goodCrc), Zeros(16), i, goodCrc);
      }
      assert Zeros(16)[..16] == Zeros(16);
    }

    method UpdateBad(ch0: Reg)
      modifies this`badCrc
      ensures badCrc == Bad(old(badCrc), MessageBits(ch0))
    {
      var ch := ch0[8..] + Zeros(8);
      assert MessageBits(ch0)[..0] == [] && ch0[8 + 0..] == ch0[8..];
      for i := 0 to 8
        invariant badCrc == Bad(old(badCrc), MessageBits(ch0)[..i])
        invariant ch == Shifted(ch0, i)
      {
        FrontBit(ch0, i);
        var xorFlag := badCrc[0] != ch[0];
        badCrc := badCrc[1..] + [false];
        if xorFlag {
          badCrc := Xor(badCrc, POLY);
        }
        NextBadBit(old(badCrc), MessageBits(ch0), i, badCrc);
        ch := ch[1..] + [false];
      }
      assert MessageBits(ch0)[..8] == MessageBits(ch0);
    }
  }

  /** `ch` after i left shifts of its low byte through the high one. */
  ghost function Shifted(ch0: Reg, i: nat): Reg
    requires i <= 8
  {
    ch0[8 + i..] + Zeros(8 + i)
  }

  lemma FrontBit(ch0: Reg, i: nat)
    requires i < 8
    ensures Shifted(ch0, i)[0] == MessageBits(ch0)[i]
    ensures Shifted(ch0, i)[1..] + [false] == Shifted(ch0, i + 1)
  {
  }

  lemma NextBadBit(c: Reg, m: seq<bool>, i: nat, d: Reg)
    requires i < |m| && d == BadStep(Bad(c, m[..i]), m[i])
    ensures d == Bad(c, m[..i + 1])
  {
    assert m[..i + 1][..i] == m[..i];
  }

  lemma NextBit(c: Reg, m: seq<bool>, i: nat, d: Reg)
    requires i < |m| && d == GoodStep(Good(c, m[..i]), m[i])
    ensures d == Good(c, m[..i + 1])
  {
    assert m[..i + 1][..i] == m[..i];
  }

  lemma {:induction false} BadAppend(c: Reg, m: seq<bool>, k: seq<bool>)
    ensures Bad(c, m + k) == Bad(Bad(c, m), k)
  {
    if k == [] {
      assert m + k == m;
    } else {
      var n := |k| - 1;
      BadAppend(c, m, k[..n]);
      assert (m + k)[..|m| + n] == m + k[..n];
    }
  }

  /**
   `go`: one text through both rules. The good result is the CRC; the bad one is the CRC of the text from another
   start.
   */
  method Go(text: seq<Reg>) returns (good: Reg, bad: Reg)
    ensures good == Crc16(Message(text))
    ensures bad == Bad(Ones(16), Message(text))
    ensures good == Bad(Augment(Ones(16)), Message(text))
  {
    var r := new Registers();
    for i := 0 to |text|
      invariant r.goodCrc == Good(Ones(16), Message(text[..i]))
      invariant r.badCrc == Bad(Ones(16), Message(text[..i]))
    {
      assert text[..i + 1][..i] == text[..i];
      GoodAppend(Ones(16), Message(text[..i]), MessageBits(text[i]));
      BadAppend(Ones(16), Message(text[..i]), MessageBits(text[i]));
      r.UpdateGood(text[i]);
      r.UpdateBad(text[i]);
    }
    assert text[..|text|] == text;
    r.AugmentGood();
    FormsAgree(Ones(16), Message(text));
    good, bad := r.goodCrc, r.badCrc;
  }

  /** The main loop of 45/crc.c in the build with POLY 0x11021 and a 32-bit register. */
  method WideCrc(text: seq<Reg>) returns (crc: Wide)
    ensures crc == Zeros(16) + Crc16(Message(text))
  {
    crc := Zeros(16) + Ones(16);
    for k := 0 to |text|
      invariant crc == Zeros(16) + Good(Ones(16), Message(text[..k]))
    {
      crc := WideByte(crc, text[k]);
      assert text[..k + 1][..k] == text[..k];
      GoodAppend(Ones(16), Message(text[..k]), MessageBits(text[k]));
      WideIsGood(Good(Ones(16), Message(text[..k])), MessageBits(text[k]));
    }
    assert text[..|text|] == text;
    ghost var c := Good(Ones(16), Message(text));
    ghost var start := crc;
    assert Zeros(16)[..0] == [];
    for j := 0 to 16
      invariant crc == WideGood(start, Zeros(16)[..j])
    {
      assert Zeros(16)[..j + 1][..j] == Zeros(16)[..j];
      var xorFlag := crc[16];
      crc := crc[1..] + [false];
      if xorFlag {
        crc := Xor(crc, Zeros(15) + [true] + POLY);
      }
    }
    assert Zeros(16)[..16] == Zeros(16);
    WideIsGood(c, Zeros(16));
  }

  /** The inner loop over the bits of one character. */
  method WideByte(crc0: Wide, ch: Reg) returns (crc: Wide)
    ensures crc == WideGood(crc0, MessageBits(ch))
  {
    crc := crc0;
    assert MessageBits(ch)[..0] == [];
    for j := 0 to 8
      invariant crc == WideGood(crc0, MessageBits(ch)[..j])
    {
      assert MessageBits(ch)[..j + 1][..j] == MessageBits(ch)[..j];
      var xorFlag := crc[16];
      crc := crc[1..] + [false];
      if ch[8 + j] {
        crc := crc[31 := true];
      }
      assert crc == WideGood(crc0, MessageBits(ch)[..j])[1..] + [ch[8 + j]];
      if xorFlag {
        crc := Xor(crc, Zeros(15) + [true] + POLY);
      }
    }
    assert MessageBits(ch)[..8] == MessageBits(ch);
  }
}

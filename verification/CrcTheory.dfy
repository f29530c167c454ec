/**
 The CRC of a bit string as polynomial division over GF(2): what the register
 holds, what attaching and checking give, and which errors change the check.
 The polynomials are those of section 5.1.1 of 3GPP TS 36.212.
 */
module Crc {
  import opened Gf2

  /** Division of init * x^|msg| + msg * x^order by p. */
  function Register(init: Bits, msg: Bits, p: Bits): (r: Bits)
    requires Monic(p) && |init| == |p| - 1
    ensures |r| == |p| - 1
  {
    Rem(Xor(init + Zeros(|msg|), msg + Zeros(|p| - 1)), p)
  }

  /** The CRC of a bit string, with a start value and a final mask. */
  function CrcValue(init: Bits, xor: Bits, msg: Bits, p: Bits): (r: Bits)
    requires Monic(p) && |init| == |xor| == |p| - 1
    ensures |r| == |p| - 1
  {
    Xor(Register(init, msg, p), xor)
  }

  lemma RegisterSplit(init: Bits, msg: Bits, p: Bits)
    requires Monic(p) && |init| == |p| - 1
    ensures Register(init, msg, p) == Xor(Rem(init + Zeros(|msg|), p), Rem(msg + Zeros(|p| - 1), p))
  {
    RemXor(init + Zeros(|msg|), msg + Zeros(|p| - 1), p);
  }

  /** The register after m ++ t is the register that starts from m's and reads t. */
  lemma RegisterAppend(init: Bits, m: Bits, t: Bits, p: Bits)
    requires Monic(p) && |init| == |p| - 1
    ensures Register(init, m + t, p) == Register(Register(init, m, p), t, p)
  {
    var o := |p| - 1;
    var a := Xor(init + Zeros(|m|), m + Zeros(o));
    var whole := Xor(init + Zeros(|m + t|), m + t + Zeros(o));
    assert whole == Xor(a + Zeros(|t|), Zeros(|m|) + (t + Zeros(o)));
    RemXor(a + Zeros(|t|), Zeros(|m|) + (t + Zeros(o)), p);
    RemAppend(a, Zeros(|t|), p);
    RemLeadingZeros(|m|, t + Zeros(o), p);
    RegisterSplit(Rem(a, p), t, p);
  }

  /** One byte: the eight top bits choose the multiple of p that is added. */
  lemma RegisterByte(reg: Bits, b: Bits, p: Bits)
    requires Monic(p) && |reg| == |p| - 1 >= 8 && |b| == 8
    ensures Register(reg, b, p) == Xor(reg[8..] + Zeros(8), Rem(Xor(reg[..8], b) + Zeros(|p| - 1), p))
  {
    var o := |p| - 1;
    var top, rest := Xor(reg[..8], b) + Zeros(o), reg[8..] + Zeros(8);
    assert Xor(reg + Zeros(8), b + Zeros(o)) == Xor(Zeros(8) + rest, top);
    RemXor(Zeros(8) + rest, top, p);
    RemLeadingZeros(8, rest, p);
  }

  lemma RegisterZeros(reg: Bits, k: nat, p: Bits)
    requires Monic(p) && |reg| == |p| - 1
    ensures Register(reg, Zeros(k), p) == Rem(reg + Zeros(k), p)
  {
    var o := |p| - 1;
    assert Xor(reg + Zeros(|Zeros(k)|), Zeros(k) + Zeros(o)) == reg + Zeros(k);
  }

  /**
   What `crc_attach` returns: the CRC of the byte-padded message, run backwards
   over the padding. The final mask is applied once by the table loop and once
   more by the backward loop.
   */
  function AttachValue(init: Bits, xor: Bits, msg: Bits, p: Bits): (r: Bits)
    requires Monic(p) && |init| == |xor| == |p| - 1 && (|msg| % 8 == 0 || IsPoly(p))
    ensures |r| == |p| - 1
  {
    if |msg| % 8 == 0 then CrcValue(init, xor, msg, p)
    else
      var pad := 8 - |msg| % 8;
      Xor(BackN(CrcValue(init, xor, msg + Zeros(pad), p), pad, p), xor)
  }

  /** Attach gives the CRC of the unpadded message exactly when there was no padding or no mask. */
  lemma AttachIsCrcIff(init: Bits, xor: Bits, msg: Bits, p: Bits)
    requires Monic(p) && |init| == |xor| == |p| - 1 && (|msg| % 8 == 0 || IsPoly(p))
    ensures AttachValue(init, xor, msg, p) == CrcValue(init, xor, msg, p)
            <==> |msg| % 8 == 0 || xor == Zeros(|p| - 1)
  {
    hide Rem, BackN, Register;
    if |msg| % 8 != 0 {
      var pad := 8 - |msg| % 8;
      var reg := Register(init, msg, p);
      RegisterAppend(init, msg, Zeros(pad), p);
      RegisterZeros(reg, pad, p);
      BackNXor(Rem(reg + Zeros(pad), p), xor, pad, p);
      BackNTimesXN(reg, pad, p);
      var back := BackN(xor, pad, p);
      assert AttachValue(init, xor, msg, p) == Xor(Xor(reg, back), xor);
      BackNZero(xor, pad, p);
      XorSameIff(reg, back, xor);
    }
  }

  lemma XorSameIff(a: Bits, b: Bits, c: Bits)
    requires |a| == |b| == |c|
    ensures Xor(Xor(a, b), c) == Xor(a, c) <==> b == Zeros(|a|)
  {
    if b != Zeros(|a|) {
      var i :| 0 <= i < |a| && b[i];
      assert Xor(Xor(a, b), c)[i] != Xor(a, c)[i];
    } else {
      assert Xor(a, b) == a;
    }
  }

  /** Whatever the start value and the mask, checking a block that carries its own CRC leaves a constant. */
  lemma CheckAfterAdd(init: Bits, xor: Bits, msg: Bits, p: Bits)
    requires Monic(p) && |init| == |xor| == |p| - 1
    ensures CrcValue(init, xor, msg + CrcValue(init, xor, msg, p), p) == Xor(Rem(xor + Zeros(|p| - 1), p), xor)
  {
    var o := |p| - 1;
    var reg := Register(init, msg, p);
    RegisterAppend(init, msg, Xor(reg, xor), p);
    assert Xor(reg + Zeros(o), Xor(reg, xor) + Zeros(o)) == xor + Zeros(o);
  }

  /** So the check of an intact block is zero exactly when the mask is a fixed point of x^order. */
  lemma CheckAfterAddZeroIff(init: Bits, xor: Bits, msg: Bits, p: Bits)
    requires Monic(p) && |init| == |xor| == |p| - 1
    ensures CrcValue(init, xor, msg + CrcValue(init, xor, msg, p), p) == Zeros(|p| - 1)
            <==> Rem(xor + Zeros(|p| - 1), p) == xor
    ensures xor == Zeros(|p| - 1)
            ==> CrcValue(init, xor, msg + CrcValue(init, xor, msg, p), p) == Zeros(|p| - 1)
  {
    CheckAfterAdd(init, xor, msg, p);
    var a := Rem(xor + Zeros(|p| - 1), p);
    if Xor(a, xor) == Zeros(|p| - 1) {
      forall i | 0 <= i < |xor| ensures a[i] == xor[i] {
        assert !Xor(a, xor)[i];
      }
      assert a == xor;
    }
    if xor == Zeros(|p| - 1) {
      assert xor + Zeros(|p| - 1) == Zeros(2 * (|p| - 1));
      RemZeros(2 * (|p| - 1), p);
    }
  }

  /** With zero start value and mask, the accepted blocks are the polynomial multiples of p. */
  lemma CheckZeroIffMultiple(block: Bits, p: Bits)
    requires IsPoly(p) && |block| >= |p| - 1
    ensures CrcValue(Zeros(|p| - 1), Zeros(|p| - 1), block, p) == Zeros(|p| - 1) <==> Multiple(block, p)
  {
    var o := |p| - 1;
    assert Xor(Zeros(o) + Zeros(|block|), block + Zeros(o)) == block + Zeros(o);
    TimesXNZero(block, o, p);
    MultipleIffRemZero(block, p);
    var r := Register(Zeros(o), block, p);
    assert Xor(r, Zeros(o)) == r;
  }

  /** An error pattern e changes the check of any block exactly when e is not a multiple of p. */
  lemma ErrorUndetectedIff(init: Bits, xor: Bits, block: Bits, e: Bits, p: Bits)
    requires IsPoly(p) && |init| == |xor| == |p| - 1 && |block| == |e| >= |p| - 1
    ensures CrcValue(init, xor, Xor(block, e), p) == CrcValue(init, xor, block, p) <==> Multiple(e, p)
  {
    var o := |p| - 1;
    var s := Xor(init + Zeros(|e|), block + Zeros(o));
    assert Xor(init + Zeros(|e|), Xor(block, e) + Zeros(o)) == Xor(s, e + Zeros(o));
    RemXor(s, e + Zeros(o), p);
    TimesXNZero(e, o, p);
    MultipleIffRemZero(e, p);
    XorSameIff(Rem(s, p), Rem(e + Zeros(o), p), xor);
  }

  /** Every nonzero error confined to `order` consecutive bits is detected. */
  lemma BurstDetected(init: Bits, xor: Bits, block: Bits, e: Bits, i: nat, p: Bits)
    requires IsPoly(p) && |init| == |xor| == |p| - 1 && |block| == |e| && Burst(e, i, |p| - 1)
    ensures CrcValue(init, xor, Xor(block, e), p) != CrcValue(init, xor, block, p)
  {
    BurstNotMultiple(e, i, p);
    MultipleIffRemZero(e, p);
    ErrorUndetectedIff(init, xor, block, e, p);
  }

  /** A message followed by its attached CRC is a multiple of p. */
  lemma AttachGivesMultiple(msg: Bits, p: Bits)
    requires IsPoly(p)
    ensures Multiple(msg + AttachValue(Zeros(|p| - 1), Zeros(|p| - 1), msg, p), p)
  {
    var z := Zeros(|p| - 1);
    AttachIsCrcIff(z, z, msg, p);
    CheckAfterAddZeroIff(z, z, msg, p);
    CheckZeroIffMultiple(msg + CrcValue(z, z, msg, p), p);
  }
}

/**
 The CRC engine of modules/CRC: a table-driven register that is never masked
 while it runs, a bit-level attach that pads to a byte and then runs the
 register backwards, and the byte-level add and check.
 */
module CrcEngine {
  import opened Gf2
  import opened Words
  import opened Crc

  const MAX_LENGTH := 1024 * 16

  const LTE_CRC24A := 0x1864CFB
  const LTE_CRC24B := 0x1800063
  const LTE_CRC16 := 0x11021
  const LTE_CRC8 := 0x19B

  /** A polynomial constant for `order`: its top bit is written out and it is odd. */
  predicate ExplicitPoly(n: nat, order: nat) {
    Pow2(order) <= n < Pow2(order + 1) && n % 2 == 1
  }

  lemma LteConstants()
    ensures ExplicitPoly(LTE_CRC24A, 24) && ExplicitPoly(LTE_CRC24B, 24)
    ensures ExplicitPoly(LTE_CRC16, 16) && ExplicitPoly(LTE_CRC8, 8)
  {
    assert Pow2(8) == 256;
    assert Pow2(16) == 256 * Pow2(8);
    assert Pow2(24) == 256 * Pow2(16);
  }

  /** The divisor a constant stands for at this order: its top coefficient is always taken as 1. */
  function Divisor(poly: Word, order: nat): (p: Bits)
    requires 8 <= order <= 32
    ensures |p| == order + 1 && Monic(p)
  {
    [true] + Low(poly, order)
  }

  /** The constant is exactly its divisor, top bit included, and x does not divide it. */
  predicate Reversible(poly: Word, order: nat)
    requires 8 <= order <= 32
  {
    poly == Extend(Divisor(poly, order)) && poly[63]
  }

  /** The two words `crc_init` derives from an order. */
  predicate Masks(order: nat, mask: Word, high: Word) {
    8 <= order <= 32 && mask == LowMask(order) && high == Extend([true] + Zeros(order - 1))
  }

  lemma InitMasks(order: nat)
    requires 8 <= order <= 32
    ensures Masks(order, Of((Pow2(order - 1) - 1) * 2 + 1), Of(Pow2(order - 1)))
  {
    hide Gf2.Zeros, Gf2.Pow2, Words.LowMask, Words.Of;
    MaskNumber(order);
    HighNumber(order);
  }

  /** An odd constant with its top bit written out is its own divisor. */
  lemma ExplicitIsDivisor(n: nat, order: nat)
    requires 8 <= order <= 32 && ExplicitPoly(n, order)
    ensures Divisor(Of(n), order) == ToBits(n, order + 1) && Reversible(Of(n), order) && IsPoly(Divisor(Of(n), order))
  {
    hide Words.Of, Words.Extend, Gf2.Pow2;
    var p := ToBits(n, order + 1);
    PolyWord(n, order);
    assert Low(Extend(p), order) == p[1..];
    assert p == [true] + p[1..];
    assert Extend(p)[63] == p[order];
  }

  lemma PolyWord(n: nat, order: nat)
    requires 8 <= order <= 32 && ExplicitPoly(n, order)
    ensures Of(n) == Extend(ToBits(n, order + 1)) && IsPoly(ToBits(n, order + 1))
  {
    ToBitsSmall(n, 64, order + 1);
    ToBitsLead(n, order);
  }

  lemma ReversibleIsPoly(poly: Word, order: nat)
    requires 8 <= order <= 32 && Reversible(poly, order)
    ensures IsPoly(Divisor(poly, order))
  {
    hide Words.Low;
    assert Low(poly, order)[order - 1] == poly[63];
  }

  // ---- Single steps of the loops, on the low bits ----

  lemma TopBit(w: Word, order: nat)
    requires 1 <= order <= 64
    ensures Truthy(And(w, Extend([true] + Zeros(order - 1)))) <==> Low(w, order)[0]
  {
    hide Words.And, Words.Extend, Words.Low, Gf2.Zeros;
    var m := And(w, Extend([true] + Zeros(order - 1)));
    assert m[64 - order] == w[64 - order];
    if Truthy(m) {
      var i :| 0 <= i < 64 && m[i];
      assert i == 64 - order;
    }
  }

  lemma ShiftBits(w: Word, poly: Word, order: nat)
    requires 8 <= order <= 32
    ensures Low(if Low(w, order)[0] then Xor(Shl(w, 1), poly) else Shl(w, 1), order)
            == Reduce(Low(w, order) + [false], Divisor(poly, order))
  {
    hide Words.Shl, Words.Low, Gf2.Xor, Gf2.Reduce;
    var n := if Low(w, order)[0] then Xor(Shl(w, 1), poly) else Shl(w, 1);
    var s, p, d := Low(w, order) + [false], Divisor(poly, order), 64 - order;
    forall i | 0 <= i < order ensures Low(n, order)[i] == Reduce(s, p)[i] {
      assert Reduce(s, p)[i] == (s[i + 1] != (s[0] && p[i + 1]));
      assert Low(n, order)[i] == n[d + i];
      assert Shl(w, 1)[d + i] == s[i + 1];
      assert p[i + 1] == poly[d + i];
    }
  }

  /** One forward shift multiplies the low bits by x modulo the divisor, whatever stands above them. */
  lemma WordShift(w: Word, poly: Word, order: nat, mask: Word, high: Word)
    requires Masks(order, mask, high)
    ensures Low(if Truthy(And(w, high)) then Xor(Shl(w, 1), poly) else Shl(w, 1), order)
            == Rem(Low(w, order) + [false], Divisor(poly, order))
  {
    hide Words.Shl, Words.Low, Words.Extend, Words.Truthy, Words.And, Gf2.Xor, Gf2.Reduce, Gf2.Zeros, Words.LowMask;
    TopBit(w, order);
    ShiftBits(w, poly, order);
    RemReduce(Low(w, order) + [false], Divisor(poly, order));
  }

  /** One turn of the loop of `reversecrcbit`. */
  function BackStep(w: Word, poly: Word): Word {
    if Same(And(LowMask(1), w), LowMask(1)) then Shr(Xor(w, poly), 1) else Shr(w, 1)
  }

  lemma TakeBackStep(w: Word, poly: Word)
    ensures BackStep(w, poly)
            == if Same(And(LowMask(1), w), LowMask(1)) then Shr(Xor(w, poly), 1) else Shr(w, 1)
  {
  }

  lemma BackStepIs(w: Word, poly: Word)
    ensures BackStep(w, poly) == if w[63] then Shr(Xor(w, poly), 1) else Shr(w, 1)
  {
    hide Words.Shr, Words.And, Words.Same, Gf2.Xor, Words.LowMask;
    LowBit(w);
  }

  lemma BackBits(r: Bits, p: Bits)
    requires IsPoly(p) && |r| == |p| - 1 <= 32
    ensures (if r[|r| - 1] then Shr(Xor(Extend(r), Extend(p)), 1) else Shr(Extend(r), 1)) == Extend(Back(r, p))
  {
    hide Words.Shr, Words.Extend, Gf2.Xor, Gf2.Back;
    var x := if r[|r| - 1] then Xor(Extend(r), Extend(p)) else Extend(r);
    var d := 64 - |r|;
    forall i | 0 <= i < 64 ensures Shr(x, 1)[i] == Extend(Back(r, p))[i] {
      assert Shr(x, 1)[i] == (i > 0 && x[i - 1]);
      assert i >= d ==> Back(r, p)[i - d] == ((i > d && r[i - d - 1]) != (r[|r| - 1] && p[i - d]));
    }
  }

  /** With a reversible constant, one backward shift divides the low bits by x modulo the divisor. */
  lemma WordBack(r: Bits, poly: Word, order: nat)
    requires 8 <= order <= 32 && Reversible(poly, order) && |r| == order
    ensures IsPoly(Divisor(poly, order)) && BackStep(Extend(r), poly) == Extend(Back(r, Divisor(poly, order)))
  {
    hide Words.Shr, Words.Extend, Gf2.Xor, Gf2.Back, BackStep, Divisor;
    ReversibleIsPoly(poly, order);
    BackStepIs(Extend(r), poly);
    BackBits(r, Divisor(poly, order));
    assert Extend(r)[63] == r[order - 1];
  }

  /** Every register comes back from a forward step by a backward one. */
  ghost predicate Undoes(poly: Word, order: nat)
    requires 8 <= order <= 32
  {
    forall r: Bits {:trigger Extend(r)} :: |r| == order ==>
      BackStep(Extend(Rem(r + [false], Divisor(poly, order))), poly) == Extend(r)
  }

  /**
   The backward step undoes the forward step for every register exactly when the
   constant is odd and is its divisor, with the top bit written out and nothing
   above it.
   */
  lemma UndoesIff(poly: Word, order: nat)
    requires 8 <= order <= 32
    ensures Undoes(poly, order) <==> Reversible(poly, order)
  {
    hide BackStep, Gf2.Rem, Gf2.Back, Words.Extend, Divisor;
    if Reversible(poly, order) {
      forall r: Bits | |r| == order
        ensures BackStep(Extend(Rem(r + [false], Divisor(poly, order))), poly) == Extend(r)
      {
        WordBack(Rem(r + [false], Divisor(poly, order)), poly, order);
        XThenBack(r, Divisor(poly, order));
      }
    }
    if Undoes(poly, order) {
      TopComesBack(poly, order);
    }
  }

  /** The register x^(order - 1) tells: it comes back only from a reversible constant. */
  lemma TopComesBack(poly: Word, order: nat)
    requires 8 <= order <= 32 && Undoes(poly, order)
    ensures Reversible(poly, order)
  {
    hide BackStep, Gf2.Rem, Gf2.Reduce, Words.Extend, Words.Low, Words.Shr, Gf2.Xor, Gf2.Zeros, Reversible;
    var top, p := [true] + Zeros(order - 1), Divisor(poly, order);
    RemReduce(top + [false], p);
    RemShort(Reduce(top + [false], p), p);
    assert Reduce(top + [false], p) == Low(poly, order);
    assert BackStep(Extend(Low(poly, order)), poly) == Extend(top);
    BackStepIs(Extend(Low(poly, order)), poly);
    OnlyReversible(Extend(Low(poly, order)), poly, order);
  }

  lemma OnlyReversible(f: Word, poly: Word, order: nat)
    requires 8 <= order <= 32 && f == Extend(Low(poly, order))
    requires (if f[63] then Shr(Xor(f, poly), 1) else Shr(f, 1)) == Extend([true] + Zeros(order - 1))
    ensures Reversible(poly, order)
  {
    hide Words.Extend, Words.Low, Words.Shr, Gf2.Xor, Gf2.Zeros;
    var top, p, d := [true] + Zeros(order - 1), Divisor(poly, order), 64 - order;
    assert f[63] by {
      assert Extend(top)[d] && Shr(f, 1)[d] == f[d - 1] == false;
    }
    forall i | 0 <= i < 64 ensures poly[i] == Extend(p)[i] {
      if i < d {
        assert Shr(Xor(f, poly), 1)[i + 1] == Extend(top)[i + 1] == (i + 1 == d);
        assert Extend(p)[i] == (i == d - 1);
      } else {
        assert p[i - d + 1] == poly[i];
      }
    }
  }

  lemma Pow2At32()
    ensures Pow2(32) == 0x1_0000_0000
  {
    assert Pow2(8) == 256;
    assert Pow2(16) == 256 * Pow2(8);
    assert Pow2(24) == 256 * Pow2(16);
    assert Pow2(32) == 256 * Pow2(24);
  }

  /** At order 32 no constant can be reversed: an unsigned int has no room for its top bit. */
  lemma NotReversibleAt32(poly: nat)
    requires poly < 0x1_0000_0000
    ensures !Reversible(Of(poly), 32)
  {
    hide Words.Extend, Gf2.ToBits, Gf2.Pow2, Words.Low;
    Pow2At32();
    ToBitsSmall(poly, 64, 32);
    assert !Of(poly)[31] && Extend(Divisor(Of(poly), 32))[31];
  }

  lemma RemShort(s: Bits, p: Bits)
    requires Monic(p) && |s| == |p| - 1
    ensures Rem(s, p) == s
  {
  }

  lemma Masked(crc: Word, xor: Word, mask: Word, order: nat)
    requires order <= 64 && mask == LowMask(order)
    ensures And(Xor(crc, xor), mask) == Extend(Xor(Low(crc, order), Low(xor, order)))
  {
    hide Words.Low, Words.Extend, Gf2.Xor, Words.And, Words.LowMask;
    AndLowMask(Xor(crc, xor), order);
  }

  /** Masking changes nothing exactly when the word has no bit above the order. */
  lemma MaskKeepsIff(w: Word, order: nat)
    requires order <= 64
    ensures Same(w, And(w, LowMask(order))) <==> forall i :: 0 <= i < 64 - order ==> !w[i]
  {
    hide Words.And, Words.LowMask, Words.Low, Words.Extend;
    AndLowMask(w, order);
    var m := And(w, LowMask(order));
    forall i | 0 <= i < 64 ensures m[i] == (i >= 64 - order && w[i]) {
    }
  }

  lemma AndZero(mask: Word)
    ensures Same(Zeros(64), And(Zeros(64), mask))
  {
  }

  // ---- The table ----

  /** The remainder of the polynomial i(x) * x^order. */
  function Entry(i: nat, p: Bits): Word
    requires Monic(p) && |p| <= 64
  {
    Extend(Rem(ToBits(i, 8) + Zeros(|p| - 1), p))
  }

  /** The table of a divisor: one remainder per byte value. */
  predicate TableOf(table: seq<Word>, p: Bits) {
    && |table| == 256 && Monic(p) && |p| <= 64
    && forall i :: 0 <= i < 256 ==> table[i] == Entry(i, p)
  }

  /** The generator's low bits for byte value i after j shifts. */
  function EntryAfter(i: nat, j: nat, p: Bits): (r: Bits)
    requires Monic(p) && 8 <= |p| - 1 <= 32
    ensures |r| == |p| - 1
  {
    Rem(ToBits(i, 8) + Zeros(|p| - 9) + Zeros(j), p)
  }

  lemma EntryStart(i: Byte, p: Bits)
    requires Monic(p) && 8 <= |p| - 1 <= 32
    ensures Low(Shl(Of(i), |p| - 9), |p| - 1) == EntryAfter(i, 0, p)
  {
    hide Words.Of, Gf2.ToBits, Words.Extend, Words.Shl, Words.Low, Gf2.Zeros;
    ByteWord(i);
    var s := ToBits(i, 8) + Zeros(|p| - 9);
    assert s + Zeros(0) == s;
    assert Low(Shl(Extend(ToBits(i, 8)), |p| - 9), |p| - 1) == s;
    RemShort(s, p);
  }

  lemma EntryShift(i: nat, j: nat, p: Bits)
    requires Monic(p) && 8 <= |p| - 1 <= 32
    ensures Rem(EntryAfter(i, j, p) + [false], p) == EntryAfter(i, j + 1, p)
  {
    hide Gf2.Rem, Gf2.ToBits;
    var s := ToBits(i, 8) + Zeros(|p| - 9);
    RemAppend(s + Zeros(j), [false], p);
    assert s + Zeros(j) + [false] == s + Zeros(j + 1);
  }

  lemma EntryEnd(w: Word, i: nat, p: Bits, mask: Word)
    requires Monic(p) && 8 <= |p| - 1 <= 32 && mask == LowMask(|p| - 1)
    requires Low(w, |p| - 1) == EntryAfter(i, 8, p)
    ensures And(w, mask) == Entry(i, p)
  {
    hide Gf2.Rem, Gf2.ToBits, Gf2.Zeros, Words.And, Words.LowMask, Words.Low, Words.Extend, Monic;
    assert ToBits(i, 8) + Zeros(|p| - 9) + Zeros(8) == ToBits(i, 8) + Zeros(|p| - 1);
    AndLowMask(w, |p| - 1);
  }

  // ---- One pass of the byte loop ----

  /** The table index is the byte added to the eight leading bits of the low part. */
  lemma IndexBits(crc: Word, order: nat, b: Byte)
    requires 8 <= order < 64
    ensures var idx := Value(Xor(And(Shr(crc, order - 8), LowMask(8)), Of(b)));
            idx < 256 && ToBits(idx, 8) == Xor(Low(crc, order)[..8], ToBits(b, 8))
  {
    hide Words.Of, Words.And, Words.Shr, Words.Low, Gf2.Xor, Gf2.ToBits, Words.Extend, Words.Ones, Gf2.Value;
    var x := Xor(Low(crc, order)[..8], ToBits(b, 8));
    ByteWord(b);
    assert Xor(And(Shr(crc, order - 8), LowMask(8)), Extend(ToBits(b, 8))) == Extend(x);
    ExtendValue(x);
    ToBitsValue(x);
  }

  lemma ExtendValue(s: Bits)
    requires |s| == 8
    ensures Value(Extend(s)) == Value(s) < 256
  {
    hide Gf2.Value;
    ValueSmall(56, s);
    assert Pow2(8) == 256;
  }

  lemma ByteStepBits(crc: Word, o: nat, r: Bits)
    requires 8 <= o <= 32 && |r| == o
    ensures Low(Xor(Shl(crc, 8), Extend(r)), o) == Xor(Low(crc, o)[8..] + Zeros(8), r)
  {
    hide Words.Low, Gf2.Xor, Words.Shl, Words.Extend;
  }

  lemma TableStep(crc: Word, init: Bits, m: seq<Byte>, b: Byte, table: seq<Word>, p: Bits)
    requires TableOf(table, p) && 8 <= |p| - 1 <= 32 && |init| == |p| - 1
    requires Low(crc, |p| - 1) == Register(init, BytesToBits(m), p)
    ensures var idx := Value(Xor(And(Shr(crc, |p| - 9), LowMask(8)), Of(b)));
            idx < 256 && Low(Xor(Shl(crc, 8), table[idx]), |p| - 1) == Register(init, BytesToBits(m + [b]), p)
  {
    hide Words.Of, Words.And, Words.Shr, Words.Shl, Words.Low, Words.LowMask, Gf2.Xor, Gf2.ToBits, Words.Extend;
    hide Gf2.Rem, Gf2.Value, Words.BytesToBits, Crc.Register;
    var reg := Low(crc, |p| - 1);
    IndexBits(crc, |p| - 1, b);
    BytesToBitsAppend(m, b);
    RegisterAppend(init, BytesToBits(m), ToBits(b, 8), p);
    RegisterByte(reg, ToBits(b, 8), p);
    ByteStepBits(crc, |p| - 1, Rem(Xor(reg[..8], ToBits(b, 8)) + Zeros(|p| - 1), p));
  }

  lemma RegisterEmpty(init: Bits, p: Bits)
    requires Monic(p) && |init| == |p| - 1
    ensures Register(init, BytesToBits([]), p) == init
  {
    assert Xor(init + Zeros(0), [] + Zeros(|p| - 1)) == init;
  }

  // ---- Bits in chars and bytes ----

  /** A char that holds one bit, at width w. */
  function BitChar(b: bool, w: nat): (s: Bits)
    requires w >= 1
    ensures |s| == w
    ensures forall i {:trigger s[i]} :: 0 <= i < w ==> s[i] == (b && i == w - 1)
  {
    Zeros(w - 1) + [b]
  }

  lemma ShiftedBit(w: Word, k: nat)
    requires k < 64
    ensures Truthy(And(Shr(w, k), LowMask(1))) <==> w[63 - k]
  {
    hide Words.Extend, Words.Shr, Words.And, Words.Low, Words.LowMask;
    AndLowMask(Shr(w, k), 1);
    var m := And(Shr(w, k), LowMask(1));
    assert m[63] == w[63 - k];
    if Truthy(m) {
      var i :| 0 <= i < 64 && m[i];
      assert i == 63;
    }
  }

  /** Adding the next bit to a word that is being assembled from the top. */
  lemma OrBit(s: Bits, b: bool, w: nat, gap: nat)
    requires |s| + gap < w
    ensures Or(Zeros(gap) + s + Zeros(w - |s| - gap), Shl(BitChar(b, w), w - |s| - gap - 1))
            == Zeros(gap) + (s + [b]) + Zeros(w - |s| - gap - 1)
  {
    hide Words.Shl, Words.Or, BitChar;
  }

  /** The eight bits of crc that start `k` places above its end. */
  lemma ByteOf(crc: Word, k: nat)
    requires k <= 56
    ensures Low(And(Shr(crc, k), LowMask(8)), 8) == crc[56 - k..64 - k]
  {
    hide Words.Shr, Words.And, Words.LowMask, Words.Low, Words.Extend;
    AndLowMask(Shr(crc, k), 8);
    LowExtend(Low(Shr(crc, k), 8));
  }

  lemma ExtendSlice(s: Bits, k: nat)
    requires k + 8 <= |s| <= 56
    ensures Extend(s)[56 - k..64 - k] == s[|s| - k - 8..|s| - k]
  {
    hide Words.Extend;
  }

  /** The byte of the CRC that ends k bits above its end. */
  lemma CrcByte(s: Bits, k: nat)
    requires k + 8 <= |s| <= 56
    ensures var v := Value(Low(And(Shr(Extend(s), k), LowMask(8)), 8));
            v < 256 && ToBits(v, 8) == s[|s| - k - 8..|s| - k]
  {
    hide Words.Extend, Words.LowMask, Words.And, Words.Low, Words.Shr, Gf2.Value;
    ByteOf(Extend(s), k);
    ExtendSlice(s, k);
    ValueByte(Low(And(Shr(Extend(s), k), LowMask(8)), 8));
  }

  lemma AppendCrcByte(msg: seq<Byte>, done: seq<Byte>, crc: Bits, i: nat, b: Byte)
    requires 8 * i + 8 <= |crc| && ToBits(b, 8) == crc[8 * i..8 * i + 8]
    requires BytesToBits(done) == BytesToBits(msg) + crc[..8 * i]
    ensures BytesToBits(done + [b]) == BytesToBits(msg) + crc[..8 * (i + 1)]
  {
    hide Words.BytesToBits, Gf2.ToBits;
    BytesToBitsAppend(done, b);
    assert crc[..8 * (i + 1)] == crc[..8 * i] + crc[8 * i..8 * i + 8];
  }

  /** The byte assembled from eight one-bit chars. */
  lemma ByteOfChars(s: Bits)
    requires |s| == 8
    ensures var v := Value(Low(And(Extend(s), LowMask(8)), 8)); v < 256 && ToBits(v, 8) == s
  {
    hide Words.Extend, Words.LowMask, Words.And, Words.Low, Gf2.Value;
    AndLowMask(Extend(s), 8);
    LowExtend(s);
    ValueByte(s);
  }

  /** Setting the next bit of a byte that is filled from the top. */
  lemma OrChar(s: Bits, i: nat, b: Byte)
    requires i < |s| <= 8 && ToBits(b, 8) == s[..i] + Zeros(8 - i)
    ensures var v := Value(Or(ToBits(b, 8), Shl(BitChar(s[i], 8), 7 - i)));
            v < 256 && ToBits(v, 8) == s[..i + 1] + Zeros(7 - i)
  {
    hide Words.Or, Words.Shl, Gf2.ToBits, Gf2.Value, BitChar;
    OrBit(s[..i], s[i], 8, 0);
    ValueByte(Or(ToBits(b, 8), Shl(BitChar(s[i], 8), 7 - i)));
    assert Zeros(0) + s[..i] + Zeros(8 - i) == s[..i] + Zeros(8 - i);
    assert s[..i] + [s[i]] == s[..i + 1];
    assert Zeros(0) + s[..i + 1] + Zeros(7 - i) == s[..i + 1] + Zeros(7 - i);
  }

  /** One more byte, filled from the top with the n bits from position pos. */
  lemma LoadedBits(done: seq<Byte>, bits: Bits, pos: nat, n: nat, b: Byte)
    requires pos + n <= |bits| && n <= 8 && BytesToBits(done) == bits[..pos]
    requires ToBits(b, 8) == bits[pos..pos + n] + Zeros(8 - n)
    ensures BytesToBits(done + [b]) == bits[..pos + n] + Zeros(8 - n)
    ensures n == 8 ==> BytesToBits(done + [b]) == bits[..pos + 8]
  {
    hide Words.BytesToBits, Gf2.ToBits, Gf2.Zeros;
    BytesToBitsAppend(done, b);
    assert bits[..pos + n] == bits[..pos] + bits[pos..pos + n];
    assert bits[..pos + n] + Zeros(8 - n) == bits[..pos] + (bits[pos..pos + n] + Zeros(8 - n));
  }

  lemma BytesToBitsEmpty()
    ensures BytesToBits([]) == []
  {
  }

  lemma ValueByte(s: Bits)
    requires |s| == 8
    ensures Value(s) < 256 && ToBits(Value(s), 8) == s
  {
    hide Gf2.Value;
    ExtendValue(s);
    ToBitsValue(s);
  }

  class Engine {
    const table: array<Word>
    const data0: array<Byte>
    var polynom: Word
    var order: int
    var crcinit: Word
    var crcxor: Word
    var crcmask: Word
    var crchighbit: Word

    constructor ()
      ensures Allocated() && fresh(table) && fresh(data0)
    {
      table := new Word[256](_ => Zeros(64));
      data0 := new Byte[MAX_LENGTH](_ => 0);
      polynom, crcinit, crcxor, crcmask, crchighbit := Zeros(64), Zeros(64), Zeros(64), Zeros(64), Zeros(64);
      order := 0;
    }

    ghost predicate Allocated() {
      table.Length == 256 && data0.Length == MAX_LENGTH
    }

    ghost predicate Configured()
      reads this
    {
      8 <= order <= 32 && order % 8 == 0 && Masks(order, crcmask, crchighbit)
    }

    ghost function Poly(): (p: Bits)
      reads this
      requires Configured()
      ensures Monic(p) && |p| == order + 1 && p == Divisor(polynom, order)
    {
      Divisor(polynom, order)
    }

    /** The backward loop works with this constant. */
    ghost predicate CanReverse()
      reads this
      requires Configured()
      ensures CanReverse() ==> IsPoly(Poly())
    {
      if Reversible(polynom, order) then ReversibleIsPoly(polynom, order); true else false
    }

    /** The engine is configured and its table is the one of its polynomial. */
    ghost predicate Valid()
      reads this, table
    {
      Allocated() && Configured() && TableOf(table[..], Poly())
    }

    ghost function Init(): (r: Bits)
      reads this
      requires Configured()
      ensures |r| == order
    {
      Low(crcinit, order)
    }

    ghost function Mask(): (r: Bits)
      reads this
      requires Configured()
      ensures |r| == order
    {
      Low(crcxor, order)
    }

    /** `gen_crc_table`. */
    method GenCrcTable()
      requires Allocated() && Configured()
      modifies table
      ensures Valid()
    {
      hide Entry, Masks, Words.Low, Gf2.Monic, Divisor;
      ghost var p := Poly();
      for i := 0 to 256
        invariant forall k :: 0 <= k < i ==> table[k] == Entry(k, p)
      {
        var crc := ByteEntry(i);
        table[i] := crc;
      }
    }

    /** The inner loop of the generator: eight shifts of one byte value. */
    method ByteEntry(i: Byte) returns (crc: Word)
      requires Configured()
      ensures crc == Entry(i, Poly())
    {
      hide Words.Extend, Words.Shl, Words.And, Words.Of, Words.LowMask, Words.Low;
      hide Words.Truthy, Entry, EntryAfter, Gf2.Xor, Gf2.Rem, Gf2.Zeros, Divisor;
      ghost var p := Poly();
      EntryStart(i, p);
      crc := Shl(Of(i), order - 8);
      for j := 0 to 8
        invariant Low(crc, order) == EntryAfter(i, j, p)
      {
        WordShift(crc, polynom, order, crcmask, crchighbit);
        EntryShift(i, j, p);
        var bit := And(crc, crchighbit);
        crc := Shl(crc, 1);
        if Truthy(bit) {
          crc := Xor(crc, polynom);
        }
      }
      EntryEnd(crc, i, p, crcmask);
      crc := And(crc, crcmask);
    }

    /**
     `crc_set_init`: refused exactly when the value has a bit above the order
     that the mask is for, and stored even then.
     */
    method SetInit(v: Word) returns (r: int)
      modifies this`crcinit
      ensures crcinit == v && (r == 0 || r == -1)
      ensures r == 0 <==> Same(v, And(v, crcmask))
      ensures forall k :: 0 <= k <= 64 && crcmask == LowMask(k) ==> (r == 0 <==> forall i :: 0 <= i < 64 - k ==> !v[i])
    {
      forall k | 0 <= k <= 64
        ensures Same(v, And(v, LowMask(k))) <==> forall i :: 0 <= i < 64 - k ==> !v[i]
      {
        MaskKeepsIff(v, k);
      }
      crcinit := v;
      if !Same(crcinit, And(crcinit, crcmask)) {
        return -1;
      }
      return 0;
    }

    /** `crc_set_xor`: the same check for the final mask. */
    method SetXor(v: Word) returns (r: int)
      modifies this`crcxor
      ensures crcxor == v && (r == 0 || r == -1)
      ensures r == 0 <==> Same(v, And(v, crcmask))
      ensures forall k :: 0 <= k <= 64 && crcmask == LowMask(k) ==> (r == 0 <==> forall i :: 0 <= i < 64 - k ==> !v[i])
    {
      forall k | 0 <= k <= 64
        ensures Same(v, And(v, LowMask(k))) <==> forall i :: 0 <= i < 64 - k ==> !v[i]
      {
        MaskKeepsIff(v, k);
      }
      crcxor := v;
      if !Same(crcxor, And(crcxor, crcmask)) {
        return -1;
      }
      return 0;
    }

    /**
     `crc_init`, for any constant: what its bits below the order say is the
     divisor, with 1 as the top coefficient. An odd constant with its top bit
     written out is its own divisor and can be reversed.
     */
    method CrcInit(poly: nat, crcOrder: int) returns (r: int)
      requires Allocated() && 1 <= crcOrder <= 32 && poly < 0x1_0000_0000
      modifies this, table
      ensures r == if crcOrder % 8 == 0 then 0 else -1
      ensures r == 0 ==> Valid() && order == crcOrder && Poly() == Divisor(Of(poly), order)
      ensures r == 0 && ExplicitPoly(poly, order) ==> Poly() == ToBits(poly, order + 1) && CanReverse()
      ensures order == crcOrder && polynom == Of(poly) && crcinit == crcxor == Zeros(64)
      ensures r == -1 ==> table[..] == old(table[..])
    {
      hide Words.Extend, Words.And, Words.Of, Words.Same, Words.LowMask, Words.Low, Divisor;
      hide Gf2.Zeros, Gf2.ToBits, Gf2.Pow2, ExplicitPoly, Masks, TableOf, Reversible;
      polynom, order, crcinit, crcxor := Of(poly), crcOrder, Zeros(64), Zeros(64);
      crcmask := Of((Pow2(order - 1) - 1) * 2 + 1);
      crchighbit := Of(Pow2(order - 1));
      if crcOrder % 8 != 0 {
        return -1;
      }
      InitMasks(crcOrder);
      if ExplicitPoly(poly, crcOrder) {
        ExplicitIsDivisor(poly, crcOrder);
      }
      AndZero(crcmask);
      var ok := SetInit(crcxor);
      if ok != 0 { return -1; }
      ok := SetXor(crcxor);
      if ok != 0 { return -1; }
      GenCrcTable();
      return 0;
    }

    /** `crctable`: the unmasked byte-wise loop computes the bit-serial CRC. */
    method Crctable(length: nat) returns (crc: Word)
      requires Valid() && length <= MAX_LENGTH
      ensures crc == Extend(CrcValue(Init(), Mask(), BytesToBits(data0[..length]), Poly()))
    {
      hide Words.Extend, Words.Shl, Words.Shr, Words.And, Words.Of, Words.LowMask, Words.Low;
      hide Words.BytesToBits, Gf2.Value, Gf2.Xor, Register, Masks, Divisor;
      var ord := order - 8;
      crc := crcinit;
      ghost var init, p := Init(), Poly();
      RegisterEmpty(init, p);
      var k := 0;
      assert data0[..0] == [];
      while k < length
        invariant 0 <= k <= length
        invariant Low(crc, order) == Register(init, BytesToBits(data0[..k]), p)
      {
        TableStep(crc, init, data0[..k], data0[k], table[..], p);
        assert data0[..k + 1] == data0[..k] + [data0[k]];
        var idx := Value(Xor(And(Shr(crc, ord), LowMask(8)), Of(data0[k])));
        crc := Xor(Shl(crc, 8), table[idx]);
        k := k + 1;
      }
      MaskOut(crc);
      crc := And(Xor(crc, crcxor), crcmask);
    }

    lemma MaskOut(crc: Word)
      requires Configured()
      ensures And(Xor(crc, crcxor), crcmask) == Extend(Xor(Low(crc, order), Mask()))
    {
      hide Words.Extend, Words.And, Words.LowMask, Words.Low, Gf2.Xor;
      Masked(crc, crcxor, crcmask, order);
    }

    /** `reversecrcbit`: nbits steps of the register run backwards; the result is always masked. */
    method ReverseCrcBit(start: Word, nbits: nat, ghost r0: Bits) returns (crc: Word)
      requires Configured() && |r0| == order && start == Extend(r0)
      ensures crc == Extend(Low(crc, order))
      ensures CanReverse() ==> crc == Extend(Xor(BackN(r0, nbits, Poly()), Mask()))
    {
      hide Words.Extend, Words.Shr, Words.And, Words.Same, Words.LowMask, Words.Low, Divisor, Reversible;
      hide Gf2.Xor, Gf2.Back, Gf2.BackN, Gf2.Zeros, Masks, BackStep;
      var rmask := LowMask(1);
      ghost var r, p := r0, Poly();
      crc := start;
      for m := 0 to nbits
        invariant CanReverse() ==> |r| == order && crc == Extend(r) && BackN(r, nbits - m, p) == BackN(r0, nbits, p)
      {
        if CanReverse() {
          WordBack(r, polynom, order);
          BackNStep(r, nbits - m, p);
          r := Back(r, p);
        }
        TakeBackStep(crc, polynom);
        if Same(And(rmask, crc), LowMask(1)) {
          crc := Shr(Xor(crc, polynom), 1);
        } else {
          crc := Shr(crc, 1);
        }
      }
      if CanReverse() {
        BackNStep(r, 0, p);
        LowExtend(r);
      }
      MaskOut(crc);
      LowExtend(Xor(Low(crc, order), Mask()));
      crc := And(Xor(crc, crcxor), crcmask);
    }

    /** `pack_bits`: write the nof low bits of value, one per char. */
    static method PackBits(value: Word, bits: array<bool>, pos: nat, nof: nat)
      requires nof <= 64 && pos + nof <= bits.Length
      modifies bits
      ensures bits[..] == old(bits[..pos]) + Low(value, nof) + old(bits[pos + nof..])
    {
      hide Words.Shr, Words.And, Words.Low, Words.Truthy, Words.LowMask;
      for i := 0 to nof
        invariant bits[..pos] == old(bits[..pos]) && bits[pos..pos + i] == Low(value, nof)[..i]
        invariant bits[pos + i..] == old(bits[pos + i..])
      {
        ShiftedBit(value, nof - i - 1);
        ghost var was := bits[..];
        bits[pos + i] := Truthy(And(Shr(value, nof - i - 1), LowMask(1)));
        assert bits[pos..pos + i + 1] == was[pos..pos + i] + [bits[pos + i]];
        assert bits[pos + i + 1..] == was[pos + i..][1..];
      }
      assert bits[..] == bits[..pos] + bits[pos..pos + nof] + bits[pos + nof..];
    }

    /** `unpack_bits`: the number whose bits are the nof chars from pos. */
    static method UnpackBits(bits: array<bool>, pos: nat, nof: nat) returns (value: Word)
      requires nof <= 32 && pos + nof <= bits.Length
      ensures value == Extend(bits[pos..pos + nof])
    {
      hide Words.Shl, Words.Or, BitChar, Words.Extend;
      value := Zeros(64);
      ghost var gap := 64 - nof;
      assert Zeros(gap) + [] + Zeros(nof) == Zeros(64);
      for i := 0 to nof
        invariant value == Zeros(gap) + bits[pos..pos + i] + Zeros(nof - i)
      {
        OrBit(bits[pos..pos + i], bits[pos + i], 64, gap);
        assert bits[pos..pos + i + 1] == bits[pos..pos + i] + [bits[pos + i]];
        value := Or(value, Shl(BitChar(bits[pos + i], 64), nof - i - 1));
      }
    }

    /** Move the bits of bufptr[..len] to data0, eight to a byte, zeros at the end. */
    method LoadBits(bufptr: array<bool>, len: nat) returns (used: nat)
      requires Valid() && len <= MAX_LENGTH && len <= bufptr.Length
      requires len % 8 == 0 || len >= 8
      modifies data0
      ensures Valid() && used == (len + 7) / 8
      ensures BytesToBits(data0[..used]) == bufptr[..len] + Zeros(8 * used - len)
    {
      hide Words.Extend, Words.And, Words.LowMask, Words.Low, Words.BytesToBits, Gf2.Value, Masks, TableOf, Divisor;
      var len8 := len / 8;
      var res8 := len - 8 * len8;
      ghost var bits := bufptr[..];
      BytesToBitsEmpty();
      assert data0[..0] == [] && bits[..0] == [];
      for i := 0 to len8
        invariant BytesToBits(data0[..i]) == bits[..8 * i]
      {
        var value := UnpackBits(bufptr, 8 * i, 8);
        ByteOfChars(bits[8 * i..8 * i + 8]);
        assert bits[8 * i..8 * i + 8] + Zeros(0) == bits[8 * i..8 * i + 8];
        ghost var done := data0[..i];
        data0[i] := Value(Low(And(value, LowMask(8)), 8));
        LoadedBits(done, bits, 8 * i, 8, data0[i]);
        assert data0[..i + 1] == done + [data0[i]];
      }
      LoadRest(bufptr, len8, res8);
      used := if res8 > 0 then len8 + 1 else len8;
      if res8 > 0 {
        LoadedBits(data0[..len8], bits, 8 * len8, res8, data0[len8]);
        assert data0[..used] == data0[..len8] + [data0[len8]];
      }
      assert bits[..len] == bufptr[..len];
    }

    /** The last, partial byte: its bits are set from the top. */
    method LoadRest(bufptr: array<bool>, len8: nat, res8: nat)
      requires Allocated() && len8 < MAX_LENGTH && res8 < 8 && 8 * len8 + res8 <= bufptr.Length
      modifies data0
      ensures data0[..len8] == old(data0[..len8])
      ensures ToBits(data0[len8], 8) == bufptr[8 * len8..8 * len8 + res8] + Zeros(8 - res8)
    {
      hide Words.Or, Words.Shl, Gf2.ToBits, Gf2.Value, BitChar;
      data0[len8] := 0;
      ToBitsZero(8);
      ghost var tail := bufptr[8 * len8..8 * len8 + res8];
      assert tail[..0] + Zeros(8) == Zeros(8);
      for i := 0 to res8
        invariant data0[..len8] == old(data0[..len8])
        invariant ToBits(data0[len8], 8) == tail[..i] + Zeros(8 - i)
      {
        OrChar(tail, i, data0[len8]);
        var bit := Shl(BitChar(bufptr[8 * len8 + i], 8), 7 - i);
        data0[len8] := Value(Or(ToBits(data0[len8], 8), bit));
      }
      assert tail[..res8] == tail;
    }

    /**
     `crc_attach`: `order` bits are written behind the len bits at the front of
     the buffer, and nothing else. They are the attach value of the message if
     it fills its bytes, and for every other length if the constant can be
     reversed. Lengths from 1 to 7 are no calls of this method: the pointer they
     read through is never set.
     */
    method CrcAttach(bufptr: array<bool>, len: nat) returns (r: Word)
      requires Valid() && (len % 8 == 0 || len >= 8)
      requires len <= MAX_LENGTH ==> len + order <= bufptr.Length
      modifies bufptr, data0
      ensures Valid()
      ensures len > MAX_LENGTH ==> r == LowMask(32) && bufptr[..] == old(bufptr[..])
      ensures len <= MAX_LENGTH ==>
                r == Extend(Low(r, order))
                && bufptr[..] == old(bufptr[..len]) + Low(r, order) + old(bufptr[len + order..])
      ensures len <= MAX_LENGTH && (len % 8 == 0 || CanReverse()) ==>
                Low(r, order) == AttachValue(Init(), Mask(), old(bufptr[..len]), Poly())
    {
      hide Words.Extend, Words.LowMask, Words.Low, Words.BytesToBits, Masks, TableOf, AttachValue, CanReverse, Divisor;
      if len > MAX_LENGTH {
        return LowMask(32);
      }
      var used := LoadBits(bufptr, len);
      r := AttachedCrc(used, len, bufptr[..len]);
      PackBits(r, bufptr, len, order);
    }

    /** The value to attach, once the padded message stands in data0. */
    method AttachedCrc(used: nat, len: nat, ghost msg: Bits) returns (r: Word)
      requires Valid() && len == |msg| <= MAX_LENGTH && used == (len + 7) / 8
      requires BytesToBits(data0[..used]) == msg + Zeros(8 * used - len)
      ensures r == Extend(Low(r, order))
      ensures len % 8 == 0 || CanReverse() ==> Low(r, order) == AttachValue(Init(), Mask(), msg, Poly())
    {
      hide Words.Extend, Words.LowMask, Words.Low, Words.BytesToBits, Gf2.BackN, Masks, TableOf, CrcValue, Divisor, CanReverse, Gf2.Monic, Gf2.IsPoly;
      ghost var p := Poly();
      r := Crctable(used);
      var res8 := len % 8;
      ghost var padded := CrcValue(Init(), Mask(), msg + Zeros(8 * used - len), p);
      LowExtend(padded);
      if res8 > 0 {
        r := ReverseCrcBit(r, 8 - res8, padded);
        if CanReverse() {
          LowExtend(AttachValue(Init(), Mask(), msg, p));
        }
      } else {
        assert msg + Zeros(0) == msg;
      }
    }

    /** `add_CRC`: append the CRC of the first datalen bytes, leading byte first. */
    method AddCrc(bufptr: array<Byte>, datalen: nat) returns (r: int)
      requires Valid() && datalen <= MAX_LENGTH && datalen + order / 8 <= bufptr.Length
      requires bufptr != data0
      modifies bufptr, data0
      ensures Valid() && r == 1
      ensures bufptr[..datalen] == old(bufptr[..datalen])
      ensures BytesToBits(bufptr[..datalen + order / 8])
              == BytesToBits(old(bufptr[..datalen]))
                 + CrcValue(Init(), Mask(), BytesToBits(old(bufptr[..datalen])), Poly())
      ensures bufptr[datalen + order / 8..] == old(bufptr[datalen + order / 8..])
    {
      hide Words.Extend, Words.LowMask, Words.Low, Words.And, Words.Shr, Words.BytesToBits;
      hide Gf2.Value, Gf2.ToBits, Masks, TableOf, CrcValue, Divisor;
      var bytes := order / 8;
      var order2 := (bytes - 1) * 8;
      forall i | 0 <= i < datalen {
        data0[i] := bufptr[i];
      }
      assert data0[..datalen] == bufptr[..datalen];
      ghost var behind := bufptr[datalen + bytes..];
      var crc := Crctable(datalen);
      ghost var value := CrcValue(Init(), Mask(), BytesToBits(bufptr[..datalen]), Poly());
      ghost var msg := bufptr[..datalen];
      assert BytesToBits(msg) + value[..0] == BytesToBits(msg);
      for i := 0 to bytes
        invariant bufptr[..datalen] == msg
        invariant BytesToBits(bufptr[..datalen + i]) == BytesToBits(msg) + value[..8 * i]
        invariant forall k :: datalen + i <= k < bufptr.Length ==> bufptr[k] == old(bufptr[k])
      {
        CrcByte(value, order2 - i * 8);
        ghost var was := bufptr[..datalen + i];
        bufptr[datalen + i] := Value(Low(And(Shr(crc, order2 - i * 8), LowMask(8)), 8));
        AppendCrcByte(msg, was, value, i, bufptr[datalen + i]);
        assert bufptr[..datalen + i + 1] == was + [bufptr[datalen + i]];
      }
      assert value[..8 * bytes] == value;
      assert bufptr[datalen + bytes..] == behind;
      return 1;
    }

    /** `check_CRC`: the CRC of a whole block. */
    method CheckCrc(bufptr: array<Byte>, datalen: nat) returns (crc: Word)
      requires Valid() && datalen <= MAX_LENGTH && datalen <= bufptr.Length
      requires bufptr != data0
      modifies data0
      ensures Valid()
      ensures crc == Extend(CrcValue(Init(), Mask(), BytesToBits(bufptr[..datalen]), Poly()))
    {
      hide Words.Extend, Words.Low, Words.BytesToBits, Masks, TableOf, CrcValue, Divisor;
      forall i | 0 <= i < datalen {
        data0[i] := bufptr[i];
      }
      assert data0[..datalen] == bufptr[..datalen];
      crc := Crctable(datalen);
    }
  }
}

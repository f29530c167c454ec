/**
 Fixed-width C words. A word is the vector of its bits, most significant first,
 so what a shift drops and what a mask keeps are explicit; an unsigned long is
 the vector of its 64 bits.
 */
module Words {
  import opened Gf2

  type Word = w: Bits | |w| == 64 witness seq(64, _ => false)
  type Byte = n: nat | n < 256

  // ---- C operators, at any width ----

  function Shl(w: Bits, k: nat): (r: Bits)
    requires k <= |w|
    ensures |r| == |w|
    ensures forall i {:trigger r[i]} :: 0 <= i < |w| ==> r[i] == (i + k < |w| && w[i + k])
  {
    w[k..] + Zeros(k)
  }

  function Shr(w: Bits, k: nat): (r: Bits)
    requires k <= |w|
    ensures |r| == |w|
    ensures forall i {:trigger r[i]} :: 0 <= i < |w| ==> r[i] == (i >= k && w[i - k])
  {
    Zeros(k) + w[..|w| - k]
  }

  function And(a: Bits, b: Bits): (c: Bits)
    requires |a| == |b|
    ensures |c| == |a|
    ensures forall i {:trigger c[i]} :: 0 <= i < |a| ==> c[i] == (a[i] && b[i])
  {
    seq(|a|, i requires 0 <= i < |a| => a[i] && b[i])
  }

  function Or(a: Bits, b: Bits): (c: Bits)
    requires |a| == |b|
    ensures |c| == |a|
    ensures forall i {:trigger c[i]} :: 0 <= i < |a| ==> c[i] == (a[i] || b[i])
  {
    seq(|a|, i requires 0 <= i < |a| => a[i] || b[i])
  }

  /** C's == on words. */
  predicate Same(a: Bits, b: Bits) { a == b }

  /** C's truth value of a word. */
  predicate Truthy(w: Bits) { exists i :: 0 <= i < |w| && w[i] }

  /** The word of a number, wrapped to 64 bits. */
  function Of(n: nat): Word { ToBits(n, 64) }

  function Ones(n: nat): (s: Bits)
    ensures |s| == n
    ensures forall i {:trigger s[i]} :: 0 <= i < n ==> s[i]
  {
    seq(n, _ => true)
  }

  /** The word whose low bits are s and whose other bits are 0. */
  function Extend(s: Bits): (w: Word)
    requires |s| <= 64
    ensures forall i {:trigger w[i]} :: 0 <= i < 64 ==> w[i] == (i >= 64 - |s| && s[i - (64 - |s|)])
  {
    Zeros(64 - |s|) + s
  }

  /** The n low bits of w. */
  function Low(w: Bits, n: nat): (r: Bits)
    requires n <= |w|
    ensures |r| == n
    ensures forall i {:trigger r[i]} :: 0 <= i < n ==> r[i] == w[|w| - n + i]
  {
    w[|w| - n..]
  }

  /** The constant with n low bits set: 0x1, 0xff. */
  function LowMask(n: nat): Word
    requires n <= 64
  {
    Extend(Ones(n))
  }

  lemma LowExtend(s: Bits)
    requires |s| <= 64
    ensures Low(Extend(s), |s|) == s
  {
    hide Low, Extend;
  }

  /** Masking keeps the low bits and nothing else. */
  lemma AndLowMask(w: Word, n: nat)
    requires n <= 64
    ensures And(w, LowMask(n)) == Extend(Low(w, n))
  {
    hide And, Low, Extend, Ones;
  }

  lemma LowBit(w: Word)
    ensures Same(And(LowMask(1), w), LowMask(1)) <==> w[63]
  {
    hide And, Extend, Ones;
    assert LowMask(1)[63];
    if And(LowMask(1), w) == LowMask(1) {
      assert And(LowMask(1), w)[63];
    }
  }

  // ---- Words of numbers ----

  lemma {:induction false} ToBitsOnes(n: nat, w: nat)
    requires n <= w
    ensures ToBits(Pow2(n) - 1, w) == Zeros(w - n) + Ones(n)
  {
    if n > 0 {
      ToBitsOnes(n - 1, w - 1);
      assert (Pow2(n) - 1) / 2 == Pow2(n - 1) - 1;
      assert Ones(n) == Ones(n - 1) + [true];
    } else {
      ToBitsZero(w);
      assert Zeros(w) == Zeros(w) + Ones(0);
    }
  }

  lemma {:induction false} ToBitsZero(w: nat)
    ensures ToBits(0, w) == Zeros(w)
  {
    if w > 0 { ToBitsZero(w - 1); }
  }

  lemma {:induction false} ToBitsUnit(k: nat, w: nat)
    requires k < w
    ensures ToBits(Pow2(k), w) == Zeros(w - k - 1) + [true] + Zeros(k)
  {
    if k > 0 {
      ToBitsUnit(k - 1, w - 1);
      assert Pow2(k) / 2 == Pow2(k - 1);
      assert Zeros(k) == Zeros(k - 1) + [false];
    } else {
      ToBitsZero(w - 1);
    }
  }

  lemma {:induction false} ToBitsLead(n: nat, k: nat)
    requires Pow2(k) <= n < Pow2(k + 1)
    ensures ToBits(n, k + 1)[0]
  {
    if k > 0 {
      ToBitsLead(n / 2, k - 1);
    } else {
      assert n == 1;
      assert ToBits(n, 1) == [] + [true];
    }
  }

  lemma {:induction false} ValueSmall(k: nat, s: Bits)
    ensures Value(Zeros(k) + s) == Value(s) < Pow2(|s|)
    decreases k + |s|
  {
    ValueBound(s);
    var t := Zeros(k) + s;
    if |s| > 0 {
      assert t[..|t| - 1] == Zeros(k) + s[..|s| - 1];
      ValueSmall(k, s[..|s| - 1]);
    } else if k > 0 {
      assert t[..|t| - 1] == Zeros(k - 1) + s;
      ValueSmall(k - 1, s);
    }
  }

  /** The mask of the n low bits, as C computes it. */
  lemma MaskNumber(n: nat)
    requires 1 <= n <= 64
    ensures Of((Pow2(n - 1) - 1) * 2 + 1) == LowMask(n)
  {
    ToBitsOnes(n, 64);
    assert (Pow2(n - 1) - 1) * 2 + 1 == Pow2(n) - 1;
  }

  /** The single bit n - 1, as C computes it. */
  lemma HighNumber(n: nat)
    requires 1 <= n <= 64
    ensures Of(Pow2(n - 1)) == Extend([true] + Zeros(n - 1))
  {
    ToBitsUnit(n - 1, 64);
    assert Extend([true] + Zeros(n - 1)) == Zeros(64 - n) + [true] + Zeros(n - 1);
  }

  lemma ByteWord(b: Byte)
    ensures Of(b) == Extend(ToBits(b, 8))
  {
    assert Pow2(8) == 256;
    ToBitsSmall(b, 64, 8);
  }

  function BytesToBits(s: seq<Byte>): (b: Bits)
    ensures |b| == 8 * |s|
  {
    if |s| == 0 then [] else BytesToBits(s[..|s| - 1]) + ToBits(s[|s| - 1], 8)
  }

  lemma BytesToBitsAppend(s: seq<Byte>, b: Byte)
    ensures BytesToBits(s + [b]) == BytesToBits(s) + ToBits(b, 8)
  {
    assert (s + [b])[..|s|] == s;
  }
}

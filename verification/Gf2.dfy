/**
 Bit strings, most significant bit first, and polynomial division over GF(2).
 A string of n bits is the polynomial of degree below n whose leading
 coefficient comes first. Division here is the schoolbook one; nothing in this
 module mentions registers, tables or bytes.
 */
module Gf2 {

  type Bits = seq<bool>

  function Zeros(n: nat): (s: Bits)
    ensures |s| == n
    ensures forall i :: 0 <= i < n ==> !s[i]
  {
    seq(n, _ => false)
  }

  function Xor(a: Bits, b: Bits): (c: Bits)
    requires |a| == |b|
    ensures |c| == |a|
    ensures forall i {:trigger c[i]} :: 0 <= i < |a| ==> c[i] == (a[i] != b[i])
  {
    seq(|a|, i requires 0 <= i < |a| => a[i] != b[i])
  }

  function ToBits(n: nat, w: nat): (s: Bits)
    ensures |s| == w
  {
    if w == 0 then [] else ToBits(n / 2, w - 1) + [n % 2 == 1]
  }

  function Value(s: Bits): nat {
    if |s| == 0 then 0 else 2 * Value(s[..|s| - 1]) + (if s[|s| - 1] then 1 else 0)
  }

  function Pow2(k: nat): (r: nat)
    ensures r >= 1
  {
    if k == 0 then 1 else 2 * Pow2(k - 1)
  }

  lemma {:induction false} ValueBound(s: Bits)
    ensures Value(s) < Pow2(|s|)
  {
    if |s| > 0 { ValueBound(s[..|s| - 1]); }
  }

  lemma ToBitsStep(v: nat, b: bool, w: nat)
    ensures ToBits(2 * v + (if b then 1 else 0), w + 1) == ToBits(v, w) + [b]
  {
    var n := 2 * v + (if b then 1 else 0);
    assert n / 2 == v && (n % 2 == 1 <==> b);
  }

  lemma {:induction false} ToBitsValue(s: Bits)
    ensures ToBits(Value(s), |s|) == s
  {
    if |s| > 0 {
      hide ToBits;
      var t, b := s[..|s| - 1], s[|s| - 1];
      ToBitsValue(t);
      ToBitsStep(Value(t), b, |t|);
      assert s == t + [b];
    }
  }

  lemma {:induction false} ToBitsSmall(n: nat, w: nat, v: nat)
    requires v <= w && n < Pow2(v)
    ensures ToBits(n, w) == Zeros(w - v) + ToBits(n, v)
  {
    if w > v {
      if v > 0 {
        ToBitsSmall(n / 2, w - 1, v - 1);
      } else {
        ToBitsSmall(n / 2, w - 1, 0);
      }
    }
  }

  // ---- Division ----

  /** A divisor: its leading coefficient is 1. Its order is |p| - 1. */
  predicate Monic(p: Bits) {
    |p| >= 2 && p[0]
  }

  /** A divisor that x does not divide: its constant coefficient is 1 too. */
  predicate IsPoly(p: Bits) {
    Monic(p) && p[|p| - 1]
  }

  /** b * p * x^n. */
  function Shifted(b: bool, p: Bits, n: nat): (s: Bits)
    ensures |s| == |p| + n
    ensures forall i {:trigger s[i]} :: 0 <= i < |s| ==> s[i] == (b && i < |p| && p[i])
  {
    seq(|p| + n, i requires 0 <= i < |p| + n => b && i < |p| && p[i])
  }

  /** One step of long division: cancel the leading coefficient, then drop it. */
  function Reduce(s: Bits, p: Bits): (r: Bits)
    requires Monic(p) && |s| >= |p|
    ensures |r| == |s| - 1
    ensures forall i {:trigger r[i]} :: 0 <= i < |r| ==> r[i] == (s[i + 1] != (s[0] && i + 1 < |p| && p[i + 1]))
  {
    Xor(s, Shifted(s[0], p, |s| - |p|))[1..]
  }

  /** The remainder of s divided by p. */
  function Rem(s: Bits, p: Bits): (r: Bits)
    requires Monic(p) && |s| >= |p| - 1
    ensures |r| == |p| - 1
    decreases |s|
  {
    if |s| == |p| - 1 then s else Rem(Reduce(s, p), p)
  }

  lemma RemReduce(s: Bits, p: Bits)
    requires Monic(p) && |s| >= |p|
    ensures Rem(s, p) == Rem(Reduce(s, p), p)
  {
  }

  function Quotient(s: Bits, p: Bits): (q: Bits)
    requires Monic(p) && |s| >= |p| - 1
    ensures |q| == |s| - (|p| - 1)
    decreases |s|
  {
    if |s| == |p| - 1 then [] else [s[0]] + Quotient(Reduce(s, p), p)
  }

  /** The product of q and p, by adding one shifted copy of p per coefficient of q. */
  function Product(q: Bits, p: Bits): (s: Bits)
    requires Monic(p)
    ensures |s| == |q| + |p| - 1
  {
    if |q| == 0 then Zeros(|p| - 1)
    else Xor(Shifted(q[0], p, |q| - 1), [false] + Product(q[1..], p))
  }

  /** s is a polynomial multiple of p. */
  ghost predicate Multiple(s: Bits, p: Bits)
    requires Monic(p) && |s| >= |p| - 1
  {
    exists q: Bits :: |q| == |s| - (|p| - 1) && Product(q, p) == s
  }

  lemma {:induction false} RemXor(a: Bits, b: Bits, p: Bits)
    requires Monic(p) && |a| == |b| >= |p| - 1
    ensures Rem(Xor(a, b), p) == Xor(Rem(a, p), Rem(b, p))
    decreases |a|
  {
    if |a| > |p| - 1 {
      assert Reduce(Xor(a, b), p) == Xor(Reduce(a, p), Reduce(b, p));
      RemXor(Reduce(a, p), Reduce(b, p), p);
    }
  }

  /** Dividing may start with a prefix: only its remainder matters for the rest. */
  lemma {:induction false} RemAppend(s: Bits, t: Bits, p: Bits)
    requires Monic(p) && |s| >= |p| - 1
    ensures Rem(s + t, p) == Rem(Rem(s, p) + t, p)
    decreases |s|
  {
    if |s| > |p| - 1 {
      assert Reduce(s + t, p) == Reduce(s, p) + t;
      RemAppend(Reduce(s, p), t, p);
    }
  }

  lemma {:induction false} RemLeadingZeros(k: nat, s: Bits, p: Bits)
    requires Monic(p) && |s| >= |p| - 1
    ensures Rem(Zeros(k) + s, p) == Rem(s, p)
  {
    if k > 0 {
      assert Reduce(Zeros(k) + s, p) == Zeros(k - 1) + s;
      RemLeadingZeros(k - 1, s, p);
    } else {
      assert Zeros(0) + s == s;
    }
  }

  lemma {:induction false} RemZeros(n: nat, p: Bits)
    requires Monic(p) && n >= |p| - 1
    ensures Rem(Zeros(n), p) == Zeros(|p| - 1)
  {
    assert Zeros(n) == Zeros(n - (|p| - 1)) + Zeros(|p| - 1);
    RemLeadingZeros(n - (|p| - 1), Zeros(|p| - 1), p);
  }

  lemma ReduceLead(s: Bits, p: Bits)
    requires Monic(p) && |s| >= |p|
    ensures s == Xor(Shifted(s[0], p, |s| - |p|), [false] + Reduce(s, p))
  {
    var lead := Shifted(s[0], p, |s| - |p|);
    forall i | 0 <= i < |s| ensures s[i] == Xor(lead, [false] + Reduce(s, p))[i] {
      assert i > 0 ==> ([false] + Reduce(s, p))[i] == Reduce(s, p)[i - 1];
    }
  }

  lemma XorBelowLead(lead: Bits, q: Bits, r: Bits)
    requires |lead| == |q| + 1 == |r| + 1
    ensures Xor(lead, [false] + Xor(q, r)) == Xor(Xor(lead, [false] + q), [false] + r)
  {
    forall i | 0 < i < |lead|
      ensures ([false] + Xor(q, r))[i] == (([false] + q)[i] != ([false] + r)[i])
    {
      assert ([false] + Xor(q, r))[i] == Xor(q, r)[i - 1];
    }
  }

  /** s = q * p + r with deg r < deg p. */
  lemma {:induction false} Division(s: Bits, p: Bits)
    requires Monic(p) && |s| >= |p| - 1
    ensures s == Xor(Product(Quotient(s, p), p), Zeros(|s| - (|p| - 1)) + Rem(s, p))
    decreases |s|
  {
    if |s| == |p| - 1 {
      assert s == Xor(Zeros(|p| - 1), Zeros(0) + s);
    } else {
      var s1 := Reduce(s, p);
      Division(s1, p);
      DivisionStep(s, Product(Quotient(s1, p), p), Rem(s1, p), p);
      ProductCons(s[0], Quotient(s1, p), p);
    }
  }

  lemma DivisionStep(s: Bits, m: Bits, r: Bits, p: Bits)
    requires Monic(p) && |r| == |p| - 1 && |s| == |m| + 1 >= |p|
    requires Reduce(s, p) == Xor(m, Zeros(|m| - |r|) + r)
    ensures s == Xor(Xor(Shifted(s[0], p, |m| - |r|), [false] + m), Zeros(|m| - |r| + 1) + r)
  {
    var k := |m| - |r|;
    ReduceLead(s, p);
    XorBelowLead(Shifted(s[0], p, k), m, Zeros(k) + r);
    assert [false] + (Zeros(k) + r) == Zeros(k + 1) + r;
  }

  lemma ProductCons(b: bool, q: Bits, p: Bits)
    requires Monic(p)
    ensures Product([b] + q, p) == Xor(Shifted(b, p, |q|), [false] + Product(q, p))
  {
    assert ([b] + q)[1..] == q;
  }

  lemma RemShifted(b: bool, t: Bits, n: nat, p: Bits)
    requires Monic(p) && |t| == |p| - 1 + n
    ensures Rem(Xor(Shifted(b, p, n), [false] + t), p) == Rem(t, p)
  {
    hide Reduce, Shifted, Xor;
    var s := Xor(Shifted(b, p, n), [false] + t);
    assert Reduce(s, p) == t by {
      forall i | 0 <= i < |t| ensures Reduce(s, p)[i] == t[i] {
        assert ([false] + t)[i + 1] == t[i];
      }
    }
    RemReduce(s, p);
  }

  lemma {:induction false} RemProduct(q: Bits, p: Bits)
    requires Monic(p)
    ensures Rem(Product(q, p), p) == Zeros(|p| - 1)
  {
    if |q| > 0 {
      RemProduct(q[1..], p);
      RemShifted(q[0], Product(q[1..], p), |q| - 1, p);
    }
  }

  /** Quotient and remainder are unique: any s = q * p + r with |r| short gives r = Rem(s). */
  lemma {:induction false} RemUnique(s: Bits, q: Bits, r: Bits, p: Bits)
    requires Monic(p) && |r| == |p| - 1 && |s| == |q| + |r|
    requires s == Xor(Product(q, p), Zeros(|q|) + r)
    ensures r == Rem(s, p)
  {
    RemXor(Product(q, p), Zeros(|q|) + r, p);
    RemProduct(q, p);
    RemLeadingZeros(|q|, r, p);
    assert Xor(Zeros(|r|), r) == r;
  }

  lemma {:induction false} MultipleIffRemZero(s: Bits, p: Bits)
    requires Monic(p) && |s| >= |p| - 1
    ensures Multiple(s, p) <==> Rem(s, p) == Zeros(|p| - 1)
  {
    if Multiple(s, p) {
      var q: Bits :| |q| == |s| - (|p| - 1) && Product(q, p) == s;
      RemProduct(q, p);
    }
    if Rem(s, p) == Zeros(|p| - 1) {
      Division(s, p);
      assert s == Product(Quotient(s, p), p);
    }
  }

  // ---- Multiplying by x, and back ----

  /** Undo one multiplication by x modulo p. */
  function Back(r: Bits, p: Bits): (b: Bits)
    requires IsPoly(p) && |r| == |p| - 1
    ensures |b| == |r|
    ensures forall i {:trigger b[i]} :: 0 <= i < |b| ==> b[i] == ((i > 0 && r[i - 1]) != (r[|r| - 1] && p[i]))
  {
    Xor([false] + r, Shifted(r[|r| - 1], p, 0))[..|r|]
  }

  function BackN(r: Bits, k: nat, p: Bits): (b: Bits)
    requires IsPoly(p) && |r| == |p| - 1
    ensures |b| == |r|
    decreases k
  {
    if k == 0 then r else BackN(Back(r, p), k - 1, p)
  }

  lemma BackNStep(r: Bits, k: nat, p: Bits)
    requires IsPoly(p) && |r| == |p| - 1
    ensures BackN(r, k, p) == if k == 0 then r else BackN(Back(r, p), k - 1, p)
  {
  }

  lemma BackThenX(r: Bits, p: Bits)
    requires IsPoly(p) && |r| == |p| - 1
    ensures Rem(Back(r, p) + [false], p) == r
  {
    hide Reduce, Back;
    var s := Back(r, p) + [false];
    assert Rem(s, p) == Reduce(s, p);
    assert s[0] == r[|r| - 1];
    assert Reduce(s, p) == r;
  }

  lemma XThenBack(r: Bits, p: Bits)
    requires IsPoly(p) && |r| == |p| - 1
    ensures Back(Rem(r + [false], p), p) == r
  {
    hide Reduce, Back;
    var n := Reduce(r + [false], p);
    assert Rem(r + [false], p) == n;
    assert n[|n| - 1] == r[0];
    assert Back(n, p) == r;
  }

  /** k backward steps undo multiplication by x^k. */
  lemma {:induction false} BackNTimesXN(r: Bits, k: nat, p: Bits)
    requires IsPoly(p) && |r| == |p| - 1
    ensures BackN(Rem(r + Zeros(k), p), k, p) == r
  {
    if k == 0 {
      assert r + Zeros(0) == r;
    } else {
      RemAppend(r + Zeros(k - 1), [false], p);
      assert r + Zeros(k) == r + Zeros(k - 1) + [false];
      XThenBack(Rem(r + Zeros(k - 1), p), p);
      BackNTimesXN(r, k - 1, p);
    }
  }

  lemma {:induction false} BackNXor(a: Bits, b: Bits, k: nat, p: Bits)
    requires IsPoly(p) && |a| == |b| == |p| - 1
    ensures BackN(Xor(a, b), k, p) == Xor(BackN(a, k, p), BackN(b, k, p))
    decreases k
  {
    if k > 0 {
      assert Back(Xor(a, b), p) == Xor(Back(a, p), Back(b, p));
      BackNXor(Back(a, p), Back(b, p), k - 1, p);
    }
  }

  /** x is invertible modulo p, so only zero is carried to zero. */
  lemma {:induction false} BackNZero(r: Bits, k: nat, p: Bits)
    requires IsPoly(p) && |r| == |p| - 1
    ensures BackN(r, k, p) == Zeros(|r|) <==> r == Zeros(|r|)
    decreases k
  {
    if k > 0 {
      var b := Back(r, p);
      BackNZero(b, k - 1, p);
      if r == Zeros(|r|) {
        assert b == Zeros(|r|);
      }
      if b == Zeros(|r|) {
        BackThenX(r, p);
        assert b + [false] == Zeros(|p|);
        RemZeros(|p|, p);
      }
    }
  }

  lemma {:induction false} TimesXNZero(s: Bits, k: nat, p: Bits)
    requires IsPoly(p) && |s| >= |p| - 1
    ensures Rem(s + Zeros(k), p) == Zeros(|p| - 1) <==> Rem(s, p) == Zeros(|p| - 1)
  {
    var r := Rem(s, p);
    RemAppend(s, Zeros(k), p);
    BackNTimesXN(r, k, p);
    BackNZero(Rem(r + Zeros(k), p), k, p);
  }

  /** Every set bit of e lies in the window of w bits that starts at bit i. */
  predicate Burst(e: Bits, i: nat, w: nat) {
    && i + w <= |e|
    && (exists t :: 0 <= t < |e| && e[t])
    && (forall t :: 0 <= t < |e| && e[t] ==> i <= t < i + w)
  }

  lemma BurstSplit(e: Bits, i: nat, w: nat)
    requires Burst(e, i, w)
    ensures e == Zeros(i) + (e[i..i + w] + Zeros(|e| - i - w))
    ensures e[i..i + w] != Zeros(w)
  {
    var b := e[i..i + w];
    var t :| 0 <= t < |e| && e[t];
    assert b[t - i];
  }

  /** No nonzero burst that fits in the order of p is a multiple of p. */
  lemma {:induction false} BurstNotMultiple(e: Bits, i: nat, p: Bits)
    requires IsPoly(p) && Burst(e, i, |p| - 1)
    ensures Rem(e, p) != Zeros(|p| - 1)
  {
    hide Zeros, Burst;
    var w := |p| - 1;
    BurstSplit(e, i, w);
    var b := e[i..i + w];
    var k := |e| - i - w;
    RemLeadingZeros(i, b + Zeros(k), p);
    TimesXNZero(b, k, p);
    assert Rem(b, p) == b;
  }
}

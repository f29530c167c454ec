/**
 The streaming polyphase resampler of modules/CPLX_FILTER. Between calls it
 keeps a delay line and two phase counters. Its specification knows none of
 these: stuff INTER - 1 zeros after every input sample, convolve, keep every
 DECIM-th sample. Samples are exact complex pairs.
 */
module Resampler {
  import opened Arith

  const FILTERLENGTH := 2048

  datatype Complex = Complex(re: real, im: real)

  const ZERO := Complex(0.0, 0.0)

  function Add(a: Complex, b: Complex): Complex {
    Complex(a.re + b.re, a.im + b.im)
  }

  function Mul(a: Complex, b: Complex): Complex {
    Complex(a.re * b.re - a.im * b.im, a.re * b.im + a.im * b.re)
  }

  // ---- Specification ----

  /** Sample i of a stream that is zero before its start and after its end. */
  function At(x: seq<Complex>, i: int): Complex {
    if 0 <= i < |x| then x[i] else ZERO
  }

  /** Tick t of the stream with inter - 1 zeros after every sample. */
  function Stuffed(x: seq<Complex>, inter: nat, t: int): Complex
    requires inter >= 1
  {
    if t % inter == 0 then At(x, t / inter) else ZERO
  }

  /** Tick t of the convolution of the stuffed stream with the first taps of h. */
  function Conv(x: seq<Complex>, h: seq<Complex>, inter: nat, taps: nat, t: int): Complex
    requires inter >= 1 && taps <= |h|
    decreases taps
  {
    if taps == 0 then ZERO
    else Add(Conv(x, h, inter, taps - 1, t), Mul(Stuffed(x, inter, t - (taps - 1)), h[taps - 1]))
  }

  function CeilDiv(a: nat, b: nat): nat
    requires b >= 1
  {
    (a + b - 1) / b
  }

  /** The taps the polyphase loop reaches. */
  function UsedTaps(h: seq<Complex>, inter: nat): (r: nat)
    requires inter >= 1
    ensures r <= |h|
  {
    MulDivBound(|h|, inter);
    |h| / inter * inter
  }

  /** Every decim-th of the first `ticks` convolution samples. */
  function Outputs(x: seq<Complex>, h: seq<Complex>, inter: nat, decim: nat, ticks: nat): (r: seq<Complex>)
    requires inter >= 1 && decim >= 1
    ensures |r| == CeilDiv(ticks, decim)
  {
    seq(CeilDiv(ticks, decim), k requires 0 <= k => Conv(x, h, inter, UsedTaps(h, inter), k * decim))
  }

  // ---- Arithmetic ----

  lemma MulDivBound(a: nat, b: nat)
    requires b >= 1
    ensures 0 <= a / b * b <= a
  {
  }

  lemma CeilDivStep(t: nat, d: nat)
    requires d >= 1
    ensures CeilDiv(t + 1, d) == CeilDiv(t, d) + (if t % d == 0 then 1 else 0)
    ensures t % d == 0 ==> CeilDiv(t, d) * d == t
  {
    var q, r := t / d, t % d;
    assert t + 1 + d - 1 == (q + 1) * d + r;
    DivModUnique(t + d, d, q + 1, r);
    if r == 0 {
      DivModUnique(t + d - 1, d, q, d - 1);
    } else {
      assert t + d - 1 == (q + 1) * d + (r - 1);
      DivModUnique(t + d - 1, d, q + 1, r - 1);
    }
  }

  lemma ModStep(t: nat, d: nat)
    requires d >= 1
    ensures (t + 1) % d == if t % d + 1 == d then 0 else t % d + 1
    ensures (t + 1) / d == if t % d + 1 == d then t / d + 1 else t / d
  {
    var q, r := t / d, t % d;
    if r + 1 == d {
      assert t + 1 == (q + 1) * d + 0;
      DivModUnique(t + 1, d, q + 1, 0);
    } else {
      DivModUnique(t + 1, d, q, r + 1);
    }
  }

  // ---- The polyphase sum is the convolution ----

  lemma ZeroTap(a: Complex, c: Complex)
    ensures Add(a, Mul(ZERO, c)) == a
  {
  }

  /** Tick i * inter + n, seen through tap j * inter + v, is a sample exactly when v is the phase n. */
  lemma TapTick(x: seq<Complex>, inter: nat, i: int, n: nat, j: int, v: nat)
    requires inter >= 1 && n < inter && v < inter
    ensures Stuffed(x, inter, i * inter + n - (j * inter + v)) == if v == n then At(x, i - j) else ZERO
  {
    var t := i * inter + n - (j * inter + v);
    assert (i - j) * inter == i * inter - j * inter;
    assert (i - j - 1) * inter == (i - j) * inter - inter;
    if v <= n {
      DivModUnique(t, inter, i - j, n - v);
    } else {
      DivModUnique(t, inter, i - j - 1, inter + n - v);
    }
  }

  /** Inside block j of the taps only tap j * inter + n meets a sample. */
  lemma {:induction false} ConvBlock(x: seq<Complex>, h: seq<Complex>, inter: nat, i: int, n: nat, j: nat, w: nat)
    requires inter >= 1 && n < inter && w <= inter && 0 <= j * inter && j * inter + w <= |h|
    ensures Conv(x, h, inter, j * inter + w, i * inter + n)
            == if w <= n then Conv(x, h, inter, j * inter, i * inter + n)
               else Add(Conv(x, h, inter, j * inter, i * inter + n), Mul(At(x, i - j), h[j * inter + n]))
    decreases w
  {
    hide Add, Mul, Stuffed, At;
    if w > 0 {
      ConvBlock(x, h, inter, i, n, j, w - 1);
      TapTick(x, inter, i, n, j, w - 1);
      ZeroTap(Conv(x, h, inter, j * inter + w - 1, i * inter + n), h[j * inter + w - 1]);
    }
  }

  /** Samples that arrive later do not change a tick that is over. */
  lemma {:induction false} ConvPrefix(x: seq<Complex>, y: seq<Complex>, h: seq<Complex>, inter: nat, taps: nat, t: int)
    requires inter >= 1 && taps <= |h| && t < |x| * inter
    ensures Conv(x + y, h, inter, taps, t) == Conv(x, h, inter, taps, t)
    decreases taps
  {
    if taps > 0 {
      ConvPrefix(x, y, h, inter, taps - 1, t);
      var s := t - (taps - 1);
      if s % inter == 0 {
        var q := s / inter;
        assert s == q * inter;
        if q >= |x| {
          MulMono(|x|, q, inter);
          assert false;
        }
      }
    }
  }

  lemma OutputsPrefix(x: seq<Complex>, y: seq<Complex>, h: seq<Complex>, inter: nat, decim: nat)
    requires inter >= 1 && decim >= 1 && 0 <= |x| * inter <= |x + y| * inter
    ensures Outputs(x, h, inter, decim, |x| * inter) <= Outputs(x + y, h, inter, decim, |x + y| * inter)
  {
    var a, b := Outputs(x, h, inter, decim, |x| * inter), Outputs(x + y, h, inter, decim, |x + y| * inter);
    CeilDivMono(|x| * inter, |x + y| * inter, decim);
    forall k | 0 <= k < |a| ensures a[k] == b[k] {
      CeilDivBound(|x| * inter, decim, k);
      ConvPrefix(x, y, h, inter, UsedTaps(h, inter), k * decim);
    }
  }

  lemma CeilDivMono(a: nat, b: nat, d: nat)
    requires d >= 1 && a <= b
    ensures CeilDiv(a, d) <= CeilDiv(b, d)
    decreases b - a
  {
    if a < b {
      CeilDivStep(a, d);
      CeilDivMono(a + 1, b, d);
    }
  }

  lemma CeilDivBound(a: nat, d: nat, k: nat)
    requires d >= 1 && k < CeilDiv(a, d)
    ensures k * d < a
  {
    var q := CeilDiv(a, d);
    MulDivBound(a + d - 1, d);
    MulMono(k + 1, q, d);
    assert (k + 1) * d == k * d + d;
  }

  /** Everything a resampler has written after reading x. */
  function Streamed(x: seq<Complex>, h: seq<Complex>, inter: nat, decim: nat): seq<Complex>
    requires inter >= 1 && decim >= 1
  {
    Outputs(x, h, inter, decim, Ticks(x, inter))
  }

  function Ticks(x: seq<Complex>, inter: nat): nat {
    |x| * inter
  }

  lemma OutputsStep(x: seq<Complex>, h: seq<Complex>, inter: nat, decim: nat, t: nat)
    requires inter >= 1 && decim >= 1
    ensures Outputs(x, h, inter, decim, t + 1)
            == Outputs(x, h, inter, decim, t)
               + (if t % decim == 0 then [Conv(x, h, inter, UsedTaps(h, inter), t)] else [])
  {
    hide Conv, CeilDiv;
    CeilDivStep(t, decim);
  }

  /** Reading y after x writes the rest of what reading both at once writes. */
  lemma StreamedAppend(x: seq<Complex>, y: seq<Complex>, h: seq<Complex>, inter: nat, decim: nat)
    requires inter >= 1 && decim >= 1
    ensures Streamed(x, h, inter, decim) <= Streamed(x + y, h, inter, decim)
  {
    hide Outputs;
    MulMono(|x|, |x + y|, inter);
    OutputsPrefix(x, y, h, inter, decim);
  }

  function Flatten(blocks: seq<seq<Complex>>): seq<Complex> {
    if |blocks| == 0 then [] else blocks[0] + Flatten(blocks[1..])
  }

  /** What the calls after x write, one block a call. */
  function Calls(x: seq<Complex>, blocks: seq<seq<Complex>>, h: seq<Complex>, inter: nat, decim: nat): seq<Complex>
    requires inter >= 1 && decim >= 1
    decreases |blocks|
  {
    if |blocks| == 0 then []
    else
      StreamedAppend(x, blocks[0], h, inter, decim);
      Streamed(x + blocks[0], h, inter, decim)[|Streamed(x, h, inter, decim)|..]
      + Calls(x + blocks[0], blocks[1..], h, inter, decim)
  }

  /** Any way of cutting a stream into blocks writes what a single call writes. */
  lemma {:induction false} AnySplit(x: seq<Complex>, blocks: seq<seq<Complex>>, h: seq<Complex>, inter: nat, decim: nat)
    requires inter >= 1 && decim >= 1
    ensures Streamed(x, h, inter, decim) + Calls(x, blocks, h, inter, decim)
            == Streamed(x + Flatten(blocks), h, inter, decim)
    decreases |blocks|
  {
    hide Streamed;
    if |blocks| == 0 {
      assert x + [] == x;
    } else {
      StreamedAppend(x, blocks[0], h, inter, decim);
      AnySplit(x + blocks[0], blocks[1..], h, inter, decim);
      assert x + Flatten(blocks) == x + blocks[0] + Flatten(blocks[1..]);
    }
  }

  /** Samples written by a call of `len` ticks that starts at tick t. */
  function Written(t: nat, len: nat, decim: nat): int
    requires decim >= 1
  {
    CeilDiv(t + len, decim) - CeilDiv(t, decim)
  }

  /**
   The count a call returns is rounded down: it is what was written or one less,
   and it is exact exactly when the call ends before it would start another
   output in its incomplete period.
   */
  lemma ReturnedCount(t: nat, len: nat, decim: nat)
    requires decim >= 1
    ensures var m, s := t % decim, len % decim;
            Written(t, len, decim) == len / decim + (if s != 0 && (m == 0 || m + s > decim) then 1 else 0)
  {
    var qt, m, ql, s := t / decim, t % decim, len / decim, len % decim;
    CeilDivOf(t, decim, qt, m);
    assert (qt + ql) * decim == qt * decim + ql * decim;
    if m + s < decim {
      CeilDivOf(t + len, decim, qt + ql, m + s);
    } else {
      assert (qt + ql + 1) * decim == (qt + ql) * decim + decim;
      CeilDivOf(t + len, decim, qt + ql + 1, m + s - decim);
    }
  }

  lemma CeilDivOf(a: nat, d: nat, q: int, r: nat)
    requires d >= 1 && a == q * d + r && r < d
    ensures CeilDiv(a, d) == if r == 0 then q else q + 1
  {
    assert (q + 1) * d == q * d + d;
    if r == 0 {
      DivModUnique(a + d - 1, d, q, d - 1);
    } else {
      DivModUnique(a + d - 1, d, q + 1, r - 1);
    }
  }

  // ---- What the caller sends on ----

  /** The samples that a call's return value covers, over the calls after x. */
  function Counted(x: seq<Complex>, blocks: seq<seq<Complex>>, h: seq<Complex>, inter: nat, decim: nat): seq<Complex>
    requires inter >= 1 && decim >= 1
    decreases |blocks|
  {
    if |blocks| == 0 then []
    else
      CallWrites(x, blocks[0], h, inter, decim);
      Streamed(x + blocks[0], h, inter, decim)[|Streamed(x, h, inter, decim)|..][..Ticks(blocks[0], inter) / decim]
      + Counted(x + blocks[0], blocks[1..], h, inter, decim)
  }

  /** A call writes `Written` samples, at least as many as it returns. */
  lemma CallWrites(x: seq<Complex>, y: seq<Complex>, h: seq<Complex>, inter: nat, decim: nat)
    requires inter >= 1 && decim >= 1
    ensures |Streamed(x, h, inter, decim)| <= |Streamed(x + y, h, inter, decim)|
    ensures |Streamed(x + y, h, inter, decim)| - |Streamed(x, h, inter, decim)|
            == Written(Ticks(x, inter), Ticks(y, inter), decim) >= Ticks(y, inter) / decim
  {
    hide Outputs;
    StreamedAppend(x, y, h, inter, decim);
    assert Ticks(x + y, inter) == Ticks(x, inter) + Ticks(y, inter);
    ReturnedCount(Ticks(x, inter), Ticks(y, inter), decim);
  }

  /** Every block of the run is a whole number of output periods. */
  predicate Whole(blocks: seq<seq<Complex>>, inter: nat, decim: nat)
    requires decim >= 1
    decreases |blocks|
  {
    |blocks| == 0 || (Ticks(blocks[0], inter) % decim == 0 && Whole(blocks[1..], inter, decim))
  }

  /** From a whole number of periods on, a block that is not whole leaves fewer samples counted than written. */
  lemma {:induction false} CountedLength(x: seq<Complex>, blocks: seq<seq<Complex>>, h: seq<Complex>, inter: nat, decim: nat)
    requires inter >= 1 && decim >= 1
    ensures |Counted(x, blocks, h, inter, decim)| <= |Calls(x, blocks, h, inter, decim)|
    ensures Ticks(x, inter) % decim == 0 && !Whole(blocks, inter, decim)
            ==> |Counted(x, blocks, h, inter, decim)| < |Calls(x, blocks, h, inter, decim)|
    decreases |blocks|
  {
    hide Streamed, Written, Ticks;
    if |blocks| > 0 {
      var b := blocks[0];
      CallWrites(x, b, h, inter, decim);
      CountedLength(x + b, blocks[1..], h, inter, decim);
      ReturnedCount(Ticks(x, inter), Ticks(b, inter), decim);
      WholeStep(x, b, inter, decim);
    }
  }

  lemma WholeStep(x: seq<Complex>, b: seq<Complex>, inter: nat, decim: nat)
    requires decim >= 1
    ensures Ticks(x, inter) % decim == 0 && Ticks(b, inter) % decim == 0 ==> Ticks(x + b, inter) % decim == 0
  {
    var p, q := Ticks(x, inter) / decim, Ticks(b, inter) / decim;
    assert Ticks(x + b, inter) == Ticks(x, inter) + Ticks(b, inter);
    if Ticks(x, inter) % decim == 0 && Ticks(b, inter) % decim == 0 {
      assert (p + q) * decim == p * decim + q * decim;
      DivModUnique(Ticks(x + b, inter), decim, p + q, 0);
    }
  }

  lemma {:induction false} CountedWhole(x: seq<Complex>, blocks: seq<seq<Complex>>, h: seq<Complex>, inter: nat, decim: nat)
    requires inter >= 1 && decim >= 1 && Ticks(x, inter) % decim == 0 && Whole(blocks, inter, decim)
    ensures Counted(x, blocks, h, inter, decim) == Calls(x, blocks, h, inter, decim)
    decreases |blocks|
  {
    hide Streamed, Written, Ticks;
    if |blocks| > 0 {
      var b := blocks[0];
      CallWrites(x, b, h, inter, decim);
      ReturnedCount(Ticks(x, inter), Ticks(b, inter), decim);
      WholeStep(x, b, inter, decim);
      CountedWhole(x + b, blocks[1..], h, inter, decim);
    }
  }

  /**
   A caller that sends on as many samples of each call as the call returned has
   sent the whole output of the stream exactly when DECIM divides the ticks of
   every call; otherwise samples are lost.
   */
  lemma CountedIsAllIff(blocks: seq<seq<Complex>>, h: seq<Complex>, inter: nat, decim: nat)
    requires inter >= 1 && decim >= 1
    ensures Counted([], blocks, h, inter, decim) == Streamed(Flatten(blocks), h, inter, decim)
            <==> Whole(blocks, inter, decim)
  {
    hide Streamed, Counted, Calls, Whole;
    AnySplit([], blocks, h, inter, decim);
    NothingStreamed(h, inter, decim);
    assert [] + Flatten(blocks) == Flatten(blocks);
    assert [] + Calls([], blocks, h, inter, decim) == Calls([], blocks, h, inter, decim);
    CountedLength([], blocks, h, inter, decim);
    if Whole(blocks, inter, decim) {
      CountedWhole([], blocks, h, inter, decim);
    }
  }

  lemma NothingStreamed(h: seq<Complex>, inter: nat, decim: nat)
    requires inter >= 1 && decim >= 1
    ensures Streamed([], h, inter, decim) == [] && Ticks([], inter) == 0
  {
    hide Conv;
    CeilDivOf(0, decim, 0, 0);
  }

  // ---- The stateful loops ----

  /** aux[j] is the sample that arrived j samples before the last of the first `end` ones. */
  ghost predicate Line(aux: seq<Complex>, x: seq<Complex>, taps: nat, end: int)
    requires taps <= |aux|
  {
    forall j :: 0 <= j < taps ==> aux[j] == At(x, end - 1 - j)
  }

  /** The delay line moves up by one and takes a sample in front. */
  method Push(aux: array<Complex>, taps: nat, sample: Complex, ghost x: seq<Complex>, ghost end: int)
    requires taps <= aux.Length && aux.Length >= 1
    requires Line(aux[..], x, taps, end) && sample == At(x, end)
    modifies aux
    ensures Line(aux[..], x, taps, end + 1)
  {
    var j := taps - 2;
    while j >= 0
      invariant -1 <= j || taps == 0
      invariant forall k :: 0 <= k < taps && k <= j + 1 ==> aux[k] == At(x, end - 1 - k)
      invariant forall k :: j + 2 <= k < taps ==> k >= 0 ==> aux[k] == At(x, end - k)
    {
      aux[j + 1] := aux[j];
      j := j - 1;
    }
    aux[0] := sample;
  }

  /** The first tap of block j. */
  function Block(j: nat, inter: nat): nat {
    j * inter
  }

  /** The polyphase sum at phase n of sample i is tick i * inter + n of the convolution. */
  method PhaseSum(aux: array<Complex>, h: seq<Complex>, inter: nat, n: nat, out: array<Complex>, k: nat,
                  ghost x: seq<Complex>, ghost i: int, ghost t: int)
    requires inter >= 1 && n < inter && |h| <= aux.Length && aux != out && k < out.Length
    requires Line(aux[..], x, |h|, i + 1) && t == i * inter + n
    modifies out
    ensures out[k] == Conv(x, h, inter, UsedTaps(h, inter), t)
    ensures forall q :: 0 <= q < out.Length && q != k ==> out[q] == old(out[q])
  {
    hide Add, Mul, Conv, Block;
    out[k] := ZERO;
    ConvNoTaps(x, h, inter, t);
    for j := 0 to |h| / inter
      invariant Block(j, inter) <= |h|
      invariant out[k] == Conv(x, h, inter, Block(j, inter), t)
      invariant forall q :: 0 <= q < out.Length && q != k ==> out[q] == old(out[q])
    {
      ConvStep(x, h, inter, i, n, j, t);
      assert aux[..][j] == At(x, i - j);
      out[k] := Add(out[k], Mul(aux[j], h[Block(j, inter) + n]));
    }
    LastBlock(h, inter);
  }

  lemma ConvNoTaps(x: seq<Complex>, h: seq<Complex>, inter: nat, t: int)
    requires inter >= 1
    ensures Block(0, inter) == 0 && Conv(x, h, inter, Block(0, inter), t) == ZERO
  {
  }

  lemma LastBlock(h: seq<Complex>, inter: nat)
    requires inter >= 1
    ensures Block(|h| / inter, inter) == UsedTaps(h, inter)
  {
  }

  lemma ConvStep(x: seq<Complex>, h: seq<Complex>, inter: nat, i: int, n: nat, j: nat, t: int)
    requires inter >= 1 && n < inter && j < |h| / inter && t == i * inter + n
    ensures j < |h| && Block(j, inter) + n < |h| && Block(j + 1, inter) <= |h|
    ensures Conv(x, h, inter, Block(j + 1, inter), t)
            == Add(Conv(x, h, inter, Block(j, inter), t), Mul(At(x, i - j), h[Block(j, inter) + n]))
  {
    hide Conv, Add, Mul;
    BlockInside(|h|, inter, j);
    ConvBlock(x, h, inter, i, n, j, inter);
  }

  lemma BlockInside(len: nat, inter: nat, j: nat)
    requires inter >= 1 && j < len / inter
    ensures j < len && 0 <= j * inter && (j + 1) * inter == j * inter + inter <= len
  {
    MulDivBound(len, inter);
    MulMono(j + 1, len / inter, inter);
    MulMono(1, inter, j + 1);
    assert (j + 1) * inter == inter * (j + 1);
  }

  /** The value of a counter that wraps at d, after i increments. */
  function Phase(i: nat, d: nat): (r: nat)
    requires d >= 1
    ensures r < d
  {
    i % d
  }

  /** The input sample that tick i of a call belongs to. */
  function Sample(i: nat, inter: nat): nat
    requires inter >= 1
  {
    i / inter
  }

  lemma PhaseStep(i: nat, d: nat)
    requires d >= 1
    ensures Phase(i + 1, d) == if Phase(i, d) + 1 == d then 0 else Phase(i, d) + 1
    ensures Phase(0, d) == 0
  {
    ModStep(i, d);
  }

  /** Tick i meets a new sample when its phase is 0; its sample is in the line afterwards. */
  lemma NewSample(i: nat, x: seq<Complex>, y: seq<Complex>, inter: nat)
    requires inter >= 1 && i < Ticks(y, inter)
    ensures var s := Sample(i, inter);
            && 0 <= s < |y| && y[s] == At(x + y, |x| + s)
            && CeilDiv(i, inter) == (if Phase(i, inter) == 0 then s else s + 1)
            && CeilDiv(i + 1, inter) == s + 1
            && Ticks(x, inter) + i == (|x| + s) * inter + Phase(i, inter)
  {
    SampleOfTick(i, x, y, inter);
    CeilDivOf(i, inter, i / inter, i % inter);
    CeilDivStep(i, inter);
  }

  lemma WrittenBound(t0: nat, i: nat, len: nat, decim: nat)
    requires decim >= 1 && i <= len
    ensures 0 == Written(t0, 0, decim) <= Written(t0, i, decim) <= Written(t0, len, decim)
  {
    CeilDivMono(t0, t0 + i, decim);
    CeilDivMono(t0 + i, t0 + len, decim);
  }

  /** A tick at phase 0 of the decimator writes its convolution sample, no other tick writes. */
  lemma TickOutput(x: seq<Complex>, h: seq<Complex>, inter: nat, decim: nat, t0: nat, i: nat)
    requires inter >= 1 && decim >= 1
    ensures var c := Conv(x, h, inter, UsedTaps(h, inter), t0 + i);
            && CeilDiv(t0, decim) <= CeilDiv(t0 + i, decim)
            && Written(t0, i + 1, decim) == Written(t0, i, decim) + (if Phase(t0 + i, decim) == 0 then 1 else 0)
            && Outputs(x, h, inter, decim, t0 + i + 1)
               == Outputs(x, h, inter, decim, t0 + i) + (if Phase(t0 + i, decim) == 0 then [c] else [])
  {
    hide Conv, Outputs;
    CeilDivMono(t0, t0 + i, decim);
    CeilDivStep(t0 + i, decim);
    OutputsStep(x, h, inter, decim, t0 + i);
  }

  lemma EmptyLine(aux: seq<Complex>, taps: nat)
    requires taps <= |aux| && forall q :: 0 <= q < taps ==> aux[q] == ZERO
    ensures Line(aux, [], taps, 0)
  {
  }

  lemma StartOfCall(x: seq<Complex>, y: seq<Complex>, inter: nat, aux: seq<Complex>, taps: nat)
    requires inter >= 1 && taps <= |aux| && Line(aux, x, taps, |x|)
    ensures CeilDiv(0, inter) == 0 && Phase(0, inter) == 0 && Line(aux, x + y, taps, |x|)
  {
  }

  lemma EndOfCall(x: seq<Complex>, y: seq<Complex>, h: seq<Complex>, inter: nat, decim: nat)
    requires inter >= 1 && decim >= 1
    ensures Ticks(x + y, inter) == Ticks(x, inter) + Ticks(y, inter)
    ensures Phase(Ticks(y, inter), inter) == 0 && CeilDiv(Ticks(y, inter), inter) == |y|
    ensures Streamed(x, h, inter, decim) <= Streamed(x + y, h, inter, decim)
  {
    CeilDivOf(Ticks(y, inter), inter, |y|, 0);
    DivModUnique(Ticks(y, inter), inter, |y|, 0);
    StreamedAppend(x, y, h, inter, decim);
  }

  /** Tick i of a block belongs to its sample i / inter, at phase i % inter. */
  lemma SampleOfTick(i: nat, x: seq<Complex>, y: seq<Complex>, inter: nat)
    requires inter >= 1 && i < Ticks(y, inter)
    ensures i / inter < |y|
    ensures Ticks(x, inter) + i == (|x| + i / inter) * inter + i % inter
  {
    if i / inter >= |y| {
      MulMono(|y|, i / inter, inter);
      assert false;
    }
    assert (|x| + i / inter) * inter == |x| * inter + i / inter * inter;
  }

  class Resampler {
    const aux: array<Complex>
    var started: bool
    var n: nat
    var m: nat
    /** Every sample read so far. */
    ghost var x: seq<Complex>

    constructor ()
      ensures fresh(aux) && x == []
      ensures forall taps: nat, inter: nat, decim: nat
                :: taps <= FILTERLENGTH && inter >= 1 && decim >= 1 ==> Valid(taps, inter, decim)
    {
      aux := new Complex[FILTERLENGTH](_ => ZERO);
      started, n, m, x := false, 0, 0, [];
    }

    /** Between calls the phase is 0 and m counts the ticks since the last output. */
    ghost predicate Valid(taps: nat, inter: nat, decim: nat)
      reads this, aux
    {
      && aux.Length == FILTERLENGTH && taps <= FILTERLENGTH && inter >= 1 && decim >= 1
      && n == 0 && m == Phase(Ticks(x, inter), decim)
      && (!started ==> x == [])
      && (started ==> Line(aux[..], x, taps, |x|))
    }

    /** The state after i ticks of a call that reads `input` after x. */
    ghost predicate Running(input: seq<Complex>, h: seq<Complex>, inter: nat, decim: nat, i: nat)
      reads this, aux
    {
      && started && aux.Length == FILTERLENGTH && |h| <= FILTERLENGTH && inter >= 1 && decim >= 1
      && i <= Ticks(input, inter)
      && n == Phase(i, inter) && m == Phase(Ticks(x, inter) + i, decim)
      && Line(aux[..], x + input, |h|, |x| + CeilDiv(i, inter))
    }

    /** What the first i ticks of that call have written. */
    ghost function WrittenBy(input: seq<Complex>, h: seq<Complex>, inter: nat, decim: nat, i: nat): (r: seq<Complex>)
      reads this
      requires inter >= 1 && decim >= 1
      ensures |r| == Written(Ticks(x, inter), i, decim)
    {
      CeilDivMono(Ticks(x, inter), Ticks(x, inter) + i, decim);
      Outputs(x + input, h, inter, decim, Ticks(x, inter) + i)[CeilDiv(Ticks(x, inter), decim)..]
    }

    method StreamConvIntDec(input: seq<Complex>, h: seq<Complex>, inter: nat, decim: nat, out: array<Complex>)
      returns (count: nat)
      requires Valid(|h|, inter, decim) && out != aux
      requires out.Length >= Written(Ticks(x, inter), Ticks(input, inter), decim)
      modifies this, aux, out
      ensures Valid(|h|, inter, decim) && x == old(x) + input
      ensures var before, after := Streamed(old(x), h, inter, decim), Streamed(x, h, inter, decim);
              && before <= after
              && |after| - |before| == Written(Ticks(old(x), inter), Ticks(input, inter), decim)
              && out[..|after| - |before|] == after[|before|..]
              && out[|after| - |before|..] == old(out[|after| - |before|..])
      ensures count == Ticks(input, inter) / decim
    {
      hide Ticks, Outputs, Line, Conv, CeilDiv, Phase;
      if !started {
        for j := 0 to |h|
          invariant forall q :: 0 <= q < j ==> aux[q] == ZERO
          invariant x == old(x) && n == old(n) && m == old(m) && out[..] == old(out[..])
        {
          aux[j] := ZERO;
        }
        started := true;
        EmptyLine(aux[..], |h|);
      }
      StartOfCall(x, input, inter, aux[..], |h|);
      WrittenBound(Ticks(x, inter), 0, Ticks(input, inter), decim);
      var k, i := 0, 0;
      while i < Ticks(input, inter)
        invariant Running(input, h, inter, decim, i) && x == old(x)
        invariant 0 <= k <= out.Length && k == Written(Ticks(x, inter), i, decim)
        invariant out[..k] == WrittenBy(input, h, inter, decim, i)
        invariant forall q :: k <= q < out.Length ==> out[q] == old(out[q])
      {
        WrittenBound(Ticks(x, inter), i + 1, Ticks(input, inter), decim);
        k := Tick(input, h, inter, decim, out, i, k);
        i := i + 1;
      }
      EndOfCall(x, input, h, inter, decim);
      x := x + input;
      count := Ticks(input, inter) / decim;
    }

    /** The body of the loop over ticks. */
    method Tick(input: seq<Complex>, h: seq<Complex>, inter: nat, decim: nat, out: array<Complex>, i: nat, k0: nat)
      returns (k: nat)
      requires Running(input, h, inter, decim, i) && i < Ticks(input, inter) && out != aux
      requires k0 == Written(Ticks(x, inter), i, decim) && k0 <= out.Length
      requires out.Length >= Written(Ticks(x, inter), Ticks(input, inter), decim)
      requires out[..k0] == WrittenBy(input, h, inter, decim, i)
      modifies this`n, this`m, aux, out
      ensures Running(input, h, inter, decim, i + 1)
      ensures k0 <= k == Written(Ticks(x, inter), i + 1, decim) && k <= out.Length
      ensures out[..k] == WrittenBy(input, h, inter, decim, i + 1)
      ensures forall q :: k <= q < out.Length ==> out[q] == old(out[q])
    {
      hide Ticks, Outputs, Line, Conv, CeilDiv, Phase, Sample, Written, UsedTaps;
      ghost var all, t0 := x + input, Ticks(x, inter);
      NewSample(i, x, input, inter);
      if n == 0 {
        Push(aux, |h|, input[Sample(i, inter)], all, |x| + Sample(i, inter));
      }
      k := Emit(input, h, inter, decim, out, i, k0);
      PhaseStep(i, inter);
      n := n + 1;
      if n == inter { n := 0; }
      PhaseStep(t0 + i, decim);
      m := m + 1;
      if m == decim { m := 0; }
    }

    /** The output half of a tick: one sample when the decimator is at phase 0. */
    method Emit(input: seq<Complex>, h: seq<Complex>, inter: nat, decim: nat, out: array<Complex>, i: nat, k0: nat)
      returns (k: nat)
      requires inter >= 1 && decim >= 1 && i < Ticks(input, inter) && out != aux && |h| <= aux.Length
      requires n == Phase(i, inter) && m == Phase(Ticks(x, inter) + i, decim)
      requires Line(aux[..], x + input, |h|, |x| + Sample(i, inter) + 1)
      requires k0 == Written(Ticks(x, inter), i, decim) && k0 <= out.Length
      requires out.Length >= Written(Ticks(x, inter), Ticks(input, inter), decim)
      requires out[..k0] == WrittenBy(input, h, inter, decim, i)
      modifies out
      ensures k0 <= k == Written(Ticks(x, inter), i + 1, decim) && k <= out.Length
      ensures out[..k] == WrittenBy(input, h, inter, decim, i + 1)
      ensures forall q :: k <= q < out.Length ==> out[q] == old(out[q])
    {
      hide Ticks, Outputs, Line, Conv, CeilDiv, Phase, Sample, Written, UsedTaps;
      ghost var all, t0 := x + input, Ticks(x, inter);
      NewSample(i, x, input, inter);
      WrittenBound(t0, i + 1, Ticks(input, inter), decim);
      TickOutput(all, h, inter, decim, t0, i);
      k := k0;
      if m == 0 {
        ghost var was := out[..k0];
        PhaseSum(aux, h, inter, n, out, k, all, |x| + Sample(i, inter), t0 + i);
        k := k + 1;
        assert out[..k] == was + [out[k0]];
      }
    }
  }

  // ---- Complex arithmetic ----

  const ONE := Complex(1.0, 0.0)
  const I := Complex(0.0, 1.0)

  /** Addition is that of an abelian group. */
  lemma AddLaws(a: Complex, b: Complex, c: Complex)
    ensures Add(a, b) == Add(b, a) && Add(Add(a, b), c) == Add(a, Add(b, c)) && Add(a, ZERO) == a
    ensures Add(a, Complex(-a.re, -a.im)) == ZERO
  {
  }

  /** A complex number is its real part plus i times its imaginary part, and the reals keep their arithmetic. */
  lemma Parts(a: Complex, x: real, y: real)
    ensures a == Add(Complex(a.re, 0.0), Mul(I, Complex(a.im, 0.0)))
    ensures Add(Complex(x, 0.0), Complex(y, 0.0)) == Complex(x + y, 0.0)
    ensures Mul(Complex(x, 0.0), Complex(y, 0.0)) == Complex(x * y, 0.0)
  {
  }

  lemma MulAdditive(a: Complex, b: Complex, c: Complex)
    ensures Mul(Add(a, b), c) == Add(Mul(a, c), Mul(b, c))
    ensures Mul(c, Add(a, b)) == Add(Mul(c, a), Mul(c, b))
  {
    RealDistributes(a.re, b.re, c.re);
    RealDistributes(a.im, b.im, c.im);
    RealDistributes(a.re, b.re, c.im);
    RealDistributes(a.im, b.im, c.re);
  }

  lemma RealDistributes(x: real, y: real, z: real)
    ensures (x + y) * z == x * z + y * z && z * (x + y) == z * x + z * y
    ensures (x - y) * z == x * z - y * z && z * (x - y) == z * x - z * y
  {
  }

  lemma RealAssociates(x: real, y: real, z: real)
    ensures (x * y) * z == x * (y * z)
  {
  }

  /** Real factors come out of either side, and they scale both parts. */
  lemma MulReal(k: real, a: Complex, b: Complex)
    ensures Mul(Complex(k, 0.0), a) == Complex(k * a.re, k * a.im) == Mul(a, Complex(k, 0.0))
    ensures Mul(Mul(Complex(k, 0.0), a), b) == Mul(Complex(k, 0.0), Mul(a, b))
    ensures Mul(a, Mul(Complex(k, 0.0), b)) == Mul(Complex(k, 0.0), Mul(a, b))
  {
    MulAssociates(Complex(k, 0.0), a, b);
    MulCommutes(a, Complex(k, 0.0));
    MulCommutes(a, Mul(Complex(k, 0.0), b));
    MulAssociates(Complex(k, 0.0), b, a);
    MulCommutes(a, b);
  }

  lemma MulCommutes(a: Complex, b: Complex)
    ensures Mul(a, b) == Mul(b, a)
  {
  }

  lemma MulAssociates(a: Complex, b: Complex, c: Complex)
    ensures Mul(Mul(a, b), c) == Mul(a, Mul(b, c))
  {
    RealDistributes(a.re * b.re, a.im * b.im, c.re);
    RealDistributes(a.re * b.re, a.im * b.im, c.im);
    RealDistributes(a.re * b.im, a.im * b.re, c.re);
    RealDistributes(a.re * b.im, a.im * b.re, c.im);
    RealDistributes(b.re * c.re, b.im * c.im, a.re);
    RealDistributes(b.re * c.re, b.im * c.im, a.im);
    RealDistributes(b.re * c.im, b.im * c.re, a.re);
    RealDistributes(b.re * c.im, b.im * c.re, a.im);
    RealAssociates(a.re, b.re, c.re);
    RealAssociates(a.im, b.im, c.re);
    RealAssociates(a.re, b.im, c.im);
    RealAssociates(a.im, b.re, c.im);
    RealAssociates(a.re, b.re, c.im);
    RealAssociates(a.im, b.im, c.im);
    RealAssociates(a.re, b.im, c.re);
    RealAssociates(a.im, b.re, c.re);
  }

  /** 1 is the unit on both sides, and i * i = -1. */
  lemma MulUnits(a: Complex)
    ensures Mul(ONE, a) == a == Mul(a, ONE)
    ensures Mul(I, I) == Complex(-1.0, 0.0)
  {
  }

  // ---- The operation is linear ----

  function Scaled(c: Complex, x: seq<Complex>): (r: seq<Complex>)
    ensures |r| == |x|
    ensures forall i {:trigger r[i]} :: 0 <= i < |x| ==> r[i] == Mul(c, x[i])
  {
    seq(|x|, i requires 0 <= i < |x| => Mul(c, x[i]))
  }

  function Summed(x: seq<Complex>, y: seq<Complex>): (r: seq<Complex>)
    requires |x| == |y|
    ensures |r| == |x|
    ensures forall i {:trigger r[i]} :: 0 <= i < |x| ==> r[i] == Add(x[i], y[i])
  {
    seq(|x|, i requires 0 <= i < |x| => Add(x[i], y[i]))
  }

  lemma ScaledStuffed(c: Complex, x: seq<Complex>, inter: nat, t: int)
    requires inter >= 1
    ensures Stuffed(Scaled(c, x), inter, t) == Mul(c, Stuffed(x, inter, t))
  {
    hide Add, Scaled;
    NoTap(ZERO, c);
    MulZero(c);
  }

  lemma MulZero(c: Complex)
    ensures Mul(c, ZERO) == ZERO
  {
  }

  lemma SummedStuffed(x: seq<Complex>, y: seq<Complex>, inter: nat, t: int)
    requires inter >= 1 && |x| == |y|
    ensures Stuffed(Summed(x, y), inter, t) == Add(Stuffed(x, inter, t), Stuffed(y, inter, t))
  {
    hide Mul, Summed;
    AddLaws(ZERO, ZERO, ZERO);
  }

  lemma {:induction false} ScaledConv(c: Complex, x: seq<Complex>, h: seq<Complex>, inter: nat, taps: nat, t: int)
    requires inter >= 1 && taps <= |h|
    ensures Conv(Scaled(c, x), h, inter, taps, t) == Mul(c, Conv(x, h, inter, taps, t))
    decreases taps
  {
    hide Add, Mul, Stuffed, Scaled;
    if taps == 0 {
      MulZero(c);
    } else {
      var s, tap := Stuffed(x, inter, t - (taps - 1)), h[taps - 1];
      ScaledConv(c, x, h, inter, taps - 1, t);
      ScaledStuffed(c, x, inter, t - (taps - 1));
      MulAssociates(c, s, tap);
      MulAdditive(Conv(x, h, inter, taps - 1, t), Mul(s, tap), c);
    }
  }

  lemma {:induction false} SummedConv(x: seq<Complex>, y: seq<Complex>, h: seq<Complex>, inter: nat, taps: nat, t: int)
    requires inter >= 1 && taps <= |h| && |x| == |y|
    ensures Conv(Summed(x, y), h, inter, taps, t) == Add(Conv(x, h, inter, taps, t), Conv(y, h, inter, taps, t))
    decreases taps
  {
    hide Add, Mul, Stuffed, Summed;
    if taps == 0 {
      AddLaws(ZERO, ZERO, ZERO);
    } else {
      var s, u, tap := Stuffed(x, inter, t - (taps - 1)), Stuffed(y, inter, t - (taps - 1)), h[taps - 1];
      SummedConv(x, y, h, inter, taps - 1, t);
      SummedStuffed(x, y, inter, t - (taps - 1));
      MulAdditive(s, u, tap);
      AddPairs(Conv(x, h, inter, taps - 1, t), Conv(y, h, inter, taps - 1, t), Mul(s, tap), Mul(u, tap));
    }
  }

  lemma AddPairs(a: Complex, b: Complex, c: Complex, d: Complex)
    ensures Add(Add(a, b), Add(c, d)) == Add(Add(a, c), Add(b, d))
  {
  }

  /** Multiplying the stream by a complex number multiplies every sample written by it. */
  lemma StreamedScales(c: Complex, x: seq<Complex>, h: seq<Complex>, inter: nat, decim: nat)
    requires inter >= 1 && decim >= 1
    ensures Streamed(Scaled(c, x), h, inter, decim) == Scaled(c, Streamed(x, h, inter, decim))
  {
    hide Conv, Mul, UsedTaps, CeilDiv, Scaled;
    var a, b := Streamed(Scaled(c, x), h, inter, decim), Streamed(x, h, inter, decim);
    assert |a| == |b|;
    forall k | 0 <= k < |a| ensures a[k] == Mul(c, b[k]) {
      ScaledConv(c, x, h, inter, UsedTaps(h, inter), k * decim);
    }
  }

  /** Adding two streams of equal length adds what is written. */
  lemma StreamedAdds(x: seq<Complex>, y: seq<Complex>, h: seq<Complex>, inter: nat, decim: nat)
    requires inter >= 1 && decim >= 1 && |x| == |y|
    ensures |Streamed(x, h, inter, decim)| == |Streamed(y, h, inter, decim)|
    ensures Streamed(Summed(x, y), h, inter, decim)
            == Summed(Streamed(x, h, inter, decim), Streamed(y, h, inter, decim))
  {
    hide Conv, Add, UsedTaps, CeilDiv, Summed;
    var a, b, c := Streamed(Summed(x, y), h, inter, decim), Streamed(x, h, inter, decim), Streamed(y, h, inter, decim);
    assert |a| == |b| == |c|;
    forall k | 0 <= k < |a| ensures a[k] == Add(b[k], c[k]) {
      SummedConv(x, y, h, inter, UsedTaps(h, inter), k * decim);
    }
  }

  // ---- Filters whose length is no multiple of the rate ----

  const IMPULSE := [Complex(1.0, 0.0)]

  /** The response to a single 1 is the taps. */
  lemma {:induction false} ImpulseResponse(h: seq<Complex>, inter: nat, taps: nat, t: nat)
    requires inter >= 1 && taps <= |h|
    ensures Conv(IMPULSE, h, inter, taps, t) == if t < taps then h[t] else ZERO
    decreases taps
  {
    if taps > 0 {
      ImpulseResponse(h, inter, taps - 1, t);
      StuffedImpulse(inter, t - (taps - 1));
    }
  }

  lemma StuffedImpulse(inter: nat, t: int)
    requires inter >= 1
    ensures Stuffed(IMPULSE, inter, t) == if t == 0 then Complex(1.0, 0.0) else ZERO
  {
    if t % inter == 0 && t / inter == 0 {
      assert t == 0;
    }
  }

  lemma NoTap(a: Complex, c: Complex)
    ensures Add(a, Mul(c, ZERO)) == a
  {
  }

  predicate ZeroFrom(h: seq<Complex>, from: nat) {
    forall q :: from <= q < |h| ==> h[q] == ZERO
  }

  lemma {:induction false} ZeroTaps(x: seq<Complex>, h: seq<Complex>, inter: nat, from: nat, taps: nat, t: int)
    requires inter >= 1 && from <= taps <= |h| && ZeroFrom(h, from)
    ensures Conv(x, h, inter, taps, t) == Conv(x, h, inter, from, t)
    decreases taps
  {
    hide Add, Mul, Stuffed;
    if taps > from {
      ZeroTaps(x, h, inter, from, taps - 1, t);
      NoTap(Conv(x, h, inter, taps - 1, t), Stuffed(x, inter, t - (taps - 1)));
    }
  }

  /** Every stream, at every tick, has the same convolution with the first taps of h as with all of h. */
  ghost predicate TailUnheard(h: seq<Complex>, inter: nat, taps: nat)
    requires inter >= 1 && taps <= |h|
  {
    forall x, t: nat :: Conv(x, h, inter, taps, t) == Conv(x, h, inter, |h|, t)
  }

  lemma UnheardIsZero(h: seq<Complex>, inter: nat, taps: nat, q: nat)
    requires inter >= 1 && taps <= q < |h| && TailUnheard(h, inter, taps)
    ensures h[q] == ZERO
  {
    hide Conv;
    assert Conv(IMPULSE, h, inter, taps, q) == Conv(IMPULSE, h, inter, |h|, q);
    ImpulseResponse(h, inter, taps, q);
    ImpulseResponse(h, inter, |h|, q);
  }

  /**
   The polyphase loop computes the convolution with the whole filter exactly when
   the taps behind the last full block of `inter` are zero.
   */
  lemma WholeFilterIff(h: seq<Complex>, inter: nat)
    requires inter >= 1
    ensures TailUnheard(h, inter, UsedTaps(h, inter)) <==> ZeroFrom(h, UsedTaps(h, inter))
    ensures UsedTaps(h, inter) == |h| <==> |h| % inter == 0
  {
    hide Conv, UsedTaps;
    var used := UsedTaps(h, inter);
    if TailUnheard(h, inter, used) {
      forall q | used <= q < |h| ensures h[q] == ZERO {
        UnheardIsZero(h, inter, used, q);
      }
    }
    if ZeroFrom(h, used) {
      forall x, t: nat ensures Conv(x, h, inter, used, t) == Conv(x, h, inter, |h|, t) {
        ZeroTaps(x, h, inter, used, |h|, t);
      }
    }
    UsedTapsIs(h, inter);
  }

  lemma UsedTapsIs(h: seq<Complex>, inter: nat)
    requires inter >= 1
    ensures UsedTaps(h, inter) == |h| - |h| % inter
  {
  }

  // ---- The plain filter ----

  /** The sum over the first taps of x[k - j] * h[j]. */
  function PlainSum(x: seq<Complex>, h: seq<Complex>, taps: nat, k: int): Complex
    requires taps <= |h|
    decreases taps
  {
    if taps == 0 then ZERO else Add(PlainSum(x, h, taps - 1, k), Mul(At(x, k - (taps - 1)), h[taps - 1]))
  }

  lemma {:induction false} ConvIsPlainSum(x: seq<Complex>, h: seq<Complex>, taps: nat, k: int)
    requires taps <= |h|
    ensures Conv(x, h, 1, taps, k) == PlainSum(x, h, taps, k)
    decreases taps
  {
    hide Add, Mul, At;
    if taps > 0 {
      ConvIsPlainSum(x, h, taps - 1, k);
    }
  }

  /** At rate 1:1 the specification is the textbook convolution, one output per sample. */
  lemma PlainOutputs(x: seq<Complex>, h: seq<Complex>)
    ensures |Streamed(x, h, 1, 1)| == |x|
    ensures forall k :: 0 <= k < |x| ==> Streamed(x, h, 1, 1)[k] == PlainSum(x, h, |h|, k)
  {
    hide Conv, PlainSum;
    forall k | 0 <= k < |x| ensures Streamed(x, h, 1, 1)[k] == PlainSum(x, h, |h|, k) {
      ConvIsPlainSum(x, h, |h|, k);
    }
  }

  // ---- The three stages, one after the other ----

  /** The stream with inter - 1 zeros behind every sample. */
  function StuffedSeq(x: seq<Complex>, inter: nat): (r: seq<Complex>)
    requires inter >= 1
    ensures |r| == Ticks(x, inter)
    decreases |x|
  {
    if |x| == 0 then []
    else
      TicksTail(x, inter);
      [x[0]] + seq(inter - 1, _ => ZERO) + StuffedSeq(x[1..], inter)
  }

  /** Behind the first sample and its zeros the stuffed stream is that of the other samples. */
  lemma StuffedTail(x: seq<Complex>, inter: nat, t: int)
    requires inter >= 1 && |x| > 0 && t >= inter
    ensures Stuffed(x[1..], inter, t - inter) == Stuffed(x, inter, t)
  {
    var q := t / inter;
    assert (q - 1) * inter == q * inter - inter;
    DivModUnique(t - inter, inter, q - 1, t % inter);
    if q < 1 {
      MulMono(q, 0, inter);
      assert false;
    }
  }

  lemma StuffedHead(x: seq<Complex>, inter: nat, t: int)
    requires inter >= 1 && |x| > 0 && t < inter
    ensures Stuffed(x, inter, t) == if t == 0 then x[0] else ZERO
  {
    if 0 <= t {
      DivModUnique(t, inter, 0, t);
    }
  }

  lemma {:induction false} StuffedSeqAt(x: seq<Complex>, inter: nat, t: int)
    requires inter >= 1 && t < Ticks(x, inter)
    ensures At(StuffedSeq(x, inter), t) == Stuffed(x, inter, t)
    decreases |x|
  {
    hide Stuffed, Ticks;
    if |x| == 0 {
      NoneStuffed(inter, t);
    } else {
      var head, tail := [x[0]] + seq(inter - 1, _ => ZERO), StuffedSeq(x[1..], inter);
      TicksTail(x, inter);
      assert StuffedSeq(x, inter) == head + tail && |head| == inter;
      if t < inter {
        StuffedHead(x, inter, t);
      } else {
        StuffedTail(x, inter, t);
        StuffedSeqAt(x[1..], inter, t - inter);
        assert (head + tail)[t] == tail[t - inter];
      }
    }
  }

  lemma TicksTail(x: seq<Complex>, inter: nat)
    requires |x| > 0
    ensures Ticks(x, inter) == inter + Ticks(x[1..], inter)
  {
    assert |x| * inter == inter + (|x| - 1) * inter;
  }

  lemma NoneStuffed(inter: nat, t: int)
    requires inter >= 1
    ensures Stuffed([], inter, t) == ZERO && StuffedSeq([], inter) == []
  {
  }

  lemma {:induction false} ConvIsStuffedSum(x: seq<Complex>, h: seq<Complex>, inter: nat, taps: nat, t: int)
    requires inter >= 1 && taps <= |h| && t < Ticks(x, inter)
    ensures Conv(x, h, inter, taps, t) == PlainSum(StuffedSeq(x, inter), h, taps, t)
    decreases taps
  {
    hide Add, Mul, At, Stuffed, StuffedSeq, Ticks;
    if taps > 0 {
      ConvIsStuffedSum(x, h, inter, taps - 1, t);
      StuffedSeqAt(x, inter, t - (taps - 1));
    }
  }

  /**
   What is written is the third of three stages: stuff INTER - 1 zeros behind
   every sample, filter that stream sample by sample, and keep the samples at 0,
   DECIM, 2 * DECIM and so on, to the last one inside it.
   */
  lemma StuffFilterKeep(x: seq<Complex>, h: seq<Complex>, inter: nat, decim: nat, k: nat)
    requires inter >= 1 && decim >= 1
    ensures k < |Streamed(x, h, inter, decim)| <==> k * decim < |StuffedSeq(x, inter)|
    ensures k < |Streamed(x, h, inter, decim)| ==>
              Streamed(x, h, inter, decim)[k]
              == PlainSum(StuffedSeq(x, inter), h, |h| - |h| % inter, k * decim)
  {
    hide Conv, PlainSum, StuffedSeq, UsedTaps;
    UsedTapsIs(h, inter);
    var t := Ticks(x, inter);
    if k < CeilDiv(t, decim) {
      CeilDivBound(t, decim, k);
      ConvIsStuffedSum(x, h, inter, UsedTaps(h, inter), k * decim);
    } else {
      var q := CeilDiv(t, decim);
      assert q * decim <= t + decim - 1 < q * decim + decim;
      MulMono(q, k, decim);
    }
  }

  lemma PlainStep(x: seq<Complex>, h: seq<Complex>, i: nat)
    ensures Outputs(x, h, 1, 1, i + 1) == Outputs(x, h, 1, 1, i) + [Conv(x, h, 1, UsedTaps(h, 1), i)]
    ensures |Outputs(x, h, 1, 1, i)| == i
  {
    hide Conv;
    OutputsStep(x, h, 1, 1, i);
  }

  lemma PlainStart(x: seq<Complex>, y: seq<Complex>, h: seq<Complex>)
    ensures Streamed(x, h, 1, 1) == Outputs(x + y, h, 1, 1, |x|)
    ensures Streamed(x + y, h, 1, 1) == Outputs(x + y, h, 1, 1, |x| + |y|)
  {
    hide Conv;
    StreamedAppend(x, y, h, 1, 1);
    forall k | 0 <= k < |x| ensures Streamed(x, h, 1, 1)[k] == Outputs(x + y, h, 1, 1, |x|)[k] {
      assert Streamed(x, h, 1, 1)[k] == Streamed(x + y, h, 1, 1)[k];
    }
  }

  class PlainFilter {
    const aux: array<Complex>
    var started: bool
    ghost var x: seq<Complex>

    constructor ()
      ensures fresh(aux) && x == []
      ensures forall taps: nat :: taps <= FILTERLENGTH ==> Valid(taps)
    {
      aux := new Complex[FILTERLENGTH](_ => ZERO);
      started, x := false, [];
    }

    ghost predicate Valid(taps: nat)
      reads this, aux
    {
      && aux.Length == FILTERLENGTH && taps <= FILTERLENGTH
      && (!started ==> x == [])
      && (started ==> Line(aux[..], x, taps, |x|))
    }

    /** `stream_conv_CPLX`: the resampler's specification at rate 1:1. */
    method StreamConv(input: seq<Complex>, h: seq<Complex>, out: array<Complex>) returns (count: nat)
      requires Valid(|h|) && out != aux && out.Length >= |input|
      modifies this, aux, out
      ensures Valid(|h|) && x == old(x) + input && count == |input|
      ensures Streamed(old(x), h, 1, 1) + out[..|input|] == Streamed(x, h, 1, 1)
      ensures out[|input|..] == old(out[|input|..])
    {
      hide Outputs, Line, Conv, UsedTaps;
      if !started {
        for j := 0 to |h|
          invariant forall q :: 0 <= q < j ==> aux[q] == ZERO
          invariant x == old(x) && out[..] == old(out[..])
        {
          aux[j] := ZERO;
        }
        started := true;
        EmptyLine(aux[..], |h|);
      }
      ghost var all, t0 := x + input, |x|;
      StartOfCall(x, input, 1, aux[..], |h|);
      PlainStart(x, input, h);
      for i := 0 to |input|
        invariant started && x == old(x)
        invariant Line(aux[..], all, |h|, t0 + i)
        invariant Streamed(x, h, 1, 1) + out[..i] == Outputs(all, h, 1, 1, t0 + i)
        invariant out[i..] == old(out[i..])
      {
        Push(aux, |h|, input[i], all, t0 + i);
        ghost var was := out[..];
        PhaseSum(aux, h, 1, 0, out, i, all, t0 + i, t0 + i);
        PlainStep(all, h, t0 + i);
        assert out[..i + 1] == was[..i] + [out[i]];
        assert out[i + 1..] == was[i..][1..];
      }
      x := all;
      count := |input|;
    }
  }
}

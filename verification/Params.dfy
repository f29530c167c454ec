/**
 Parameter values as text: `param_to_string` and `string_to_param` for the
 integer types, hexadecimal and strings. The widths of the C types, and the %d
 that prints an unsigned int, are explicit.
 */
module Params {
  import opened Arith

  datatype Type = Char | UChar | Short | UShort | Int | UInt | Hex | Text

  datatype Value = Number(t: Type, n: int) | Str(s: string)

  /** The number of values of the C type. */
  function Modulus(t: Type): nat {
    match t
    case Char | UChar => 0x100
    case Short | UShort => 0x1_0000
    case Int | UInt | Hex | Text => 0x1_0000_0000
  }

  predicate Signed(t: Type) {
    t.Char? || t.Short? || t.Int?
  }

  predicate InType(t: Type, n: int) {
    if Signed(t) then -(Modulus(t) as int) <= 2 * n < Modulus(t) else 0 <= n < Modulus(t)
  }

  /** C's cast of an int to an integer type. */
  function Cast(t: Type, n: int): (r: int)
    ensures InType(t, r)
  {
    var w := n % Modulus(t);
    if Signed(t) && 2 * w >= Modulus(t) then w - Modulus(t) else w
  }

  predicate InRange(v: Value) {
    match v
    case Number(t, n) => !t.Text? && InType(t, n)
    case Str(s) => '\0' !in s
  }

  function TypeOf(v: Value): Type {
    if v.Str? then Text else v.t
  }

  // ---- Digits ----

  function Digit(d: nat): char
    requires d < 16
  {
    "0123456789abcdef"[d]
  }

  /** The value of a character as a digit; 16 if it is none. */
  function DigitValue(c: char): (d: nat)
    ensures d <= 16
  {
    if '0' <= c <= '9' then (c - '0') as nat
    else if 'a' <= c <= 'f' then (c - 'a') as nat + 10
    else if 'A' <= c <= 'F' then (c - 'A') as nat + 10
    else 16
  }

  lemma DigitRoundTrip(d: nat)
    requires d < 16
    ensures DigitValue(Digit(d)) == d
    ensures Digit(d) != '|' && Digit(d) != '\0' && Digit(d) != '-' && !Space(Digit(d)) && Digit(d) != 'x'
  {
  }

  function Digits(n: nat, base: nat): (s: string)
    requires base == 10 || base == 16
    ensures |s| >= 1
    decreases n
  {
    if n < base then [Digit(n)] else Digits(n / base, base) + [Digit(n % base)]
  }

  /** Read digits from the front of s until a character that is no digit of the base. */
  function ParseDigits(s: string, base: nat, acc: nat): nat
    requires base == 10 || base == 16
    decreases |s|
  {
    if |s| == 0 || DigitValue(s[0]) >= base then acc
    else ParseDigits(s[1..], base, acc * base + DigitValue(s[0]))
  }

  predicate AllDigits(s: string, base: nat) {
    forall i :: 0 <= i < |s| ==> DigitValue(s[i]) < base
  }

  lemma {:induction false} ParseAppend(a: string, b: string, base: nat, acc: nat)
    requires (base == 10 || base == 16) && AllDigits(a, base)
    ensures ParseDigits(a + b, base, acc) == ParseDigits(b, base, ParseDigits(a, base, acc))
    decreases |a|
  {
    if |a| == 0 {
      assert a + b == b;
    } else {
      assert (a + b)[1..] == a[1..] + b;
      ParseAppend(a[1..], b, base, acc * base + DigitValue(a[0]));
    }
  }

  lemma {:induction false} DigitsRoundTrip(n: nat, base: nat)
    requires base == 10 || base == 16
    ensures AllDigits(Digits(n, base), base) && ParseDigits(Digits(n, base), base, 0) == n
    decreases n
  {
    hide Digit, DigitValue, Digits, ParseDigits;
    DigitsStep(n, base);
    if n < base {
      DigitRoundTrip(n);
      ParseOne(n, base, 0);
    } else {
      var q, d := n / base, n % base;
      DigitsRoundTrip(q, base);
      DigitRoundTrip(d);
      ParseAppend(Digits(q, base), [Digit(d)], base, 0);
      ParseOne(d, base, q);
    }
  }

  lemma DigitsStep(n: nat, base: nat)
    requires base == 10 || base == 16
    ensures n < base ==> Digits(n, base) == [Digit(n)]
    ensures n >= base ==> Digits(n, base) == Digits(n / base, base) + [Digit(n % base)]
    ensures n >= base ==> n / base < n && n / base * base + n % base == n
  {
    if base == 10 {
      assert n / 10 * 10 + n % 10 == n;
    } else {
      assert n / 16 * 16 + n % 16 == n;
    }
  }

  lemma ParseOne(d: nat, base: nat, acc: nat)
    requires (base == 10 || base == 16) && d < base
    ensures ParseDigits([Digit(d)], base, acc) == acc * base + d
  {
    hide Digit, DigitValue;
    DigitRoundTrip(d);
    assert [Digit(d)][1..] == [];
  }

  // ---- Numbers ----

  predicate Space(c: char) {
    c == ' ' || c == '\t' || c == '\n' || c == '\r' || c as int == 11 || c as int == 12
  }

  function SkipSpace(s: string): string {
    if |s| > 0 && Space(s[0]) then SkipSpace(s[1..]) else s
  }

  /** printf's %d. */
  function Decimal(n: int): (s: string)
    ensures |s| >= 1
  {
    if n < 0 then "-" + Digits(-n, 10) else Digits(n, 10)
  }

  /** atoi(), for texts whose number fits an int. */
  function Atoi(s: string): int {
    var t := SkipSpace(s);
    if |t| > 0 && t[0] == '-' then -(ParseDigits(t[1..], 10, 0) as int)
    else if |t| > 0 && t[0] == '+' then ParseDigits(t[1..], 10, 0)
    else ParseDigits(t, 10, 0)
  }

  /** strtoul() in base 16, for texts without a sign. */
  function StrtoulHex(s: string): nat {
    var t := SkipSpace(s);
    if |t| > 2 && t[0] == '0' && (t[1] == 'x' || t[1] == 'X') && DigitValue(t[2]) < 16
    then ParseDigits(t[2..], 16, 0)
    else ParseDigits(t, 16, 0)
  }

  lemma DecimalRoundTrip(n: int)
    ensures Atoi(Decimal(n)) == n
  {
    var m := if n < 0 then -n else n;
    var d := Digits(m, 10);
    DigitsRoundTrip(m, 10);
    assert DigitValue(d[0]) < 10;
    assert SkipSpace(d) == d && SkipSpace("-" + d) == "-" + d;
    assert ("-" + d)[1..] == d;
  }

  lemma HexRoundTrip(n: nat)
    ensures StrtoulHex("0x" + Digits(n, 16)) == n
  {
    var d := Digits(n, 16);
    DigitsRoundTrip(n, 16);
    assert ("0x" + d)[2] == d[0] && ("0x" + d)[2..] == d;
  }

  // ---- The two functions ----

  /** `param_to_string`: every integer type is printed with %d, that is as a signed int. */
  function ToString(v: Value): string {
    match v
    case Number(t, n) => if t.Hex? then "0x" + Digits(Cast(Hex, n), 16) else Decimal(Cast(Int, n))
    case Str(s) => s
  }

  /** `string_to_param`. */
  function FromString(s: string, t: Type): Value {
    match t
    case Text => Str(s)
    case Hex => Number(Hex, Cast(Hex, StrtoulHex(s)))
    case _ => Number(t, Cast(t, Atoi(s)))
  }

  lemma CastSame(t: Type, n: int)
    requires InType(t, n)
    ensures Cast(t, n) == n
  {
    match t
    case Char | UChar => assert n % 0x100 == if n < 0 then n + 0x100 else n;
    case Short | UShort => assert n % 0x1_0000 == if n < 0 then n + 0x1_0000 else n;
    case Int | UInt | Hex | Text => assert n % 0x1_0000_0000 == if n < 0 then n + 0x1_0000_0000 else n;
  }

  /** Printing as a signed int and casting back loses nothing, for unsigned ints too. */
  lemma CastBack(t: Type, n: int)
    requires InType(t, n)
    ensures Cast(t, Cast(Int, n)) == n
  {
    CastSame(t, n);
    if InType(Int, n) {
      CastSame(Int, n);
    } else {
      assert n % 0x1_0000_0000 == n;
      assert Cast(Int, n) == n - 0x1_0000_0000;
      assert (n - 0x1_0000_0000) % 0x1_0000_0000 == n;
    }
  }

  lemma ParamRoundTrip(v: Value)
    requires InRange(v)
    ensures FromString(ToString(v), TypeOf(v)) == v
  {
    match v
    case Number(t, n) =>
      CastBack(t, n);
      if t.Hex? {
        HexRoundTrip(Cast(Hex, n));
        CastSame(Hex, n);
      } else {
        DecimalRoundTrip(Cast(Int, n));
      }
    case Str(s) =>
  }

  // ---- What the texts are ----

  /** The ranges of the C types. */
  lemma Ranges(n: int)
    ensures InType(Char, n) <==> -128 <= n <= 127
    ensures InType(UChar, n) <==> 0 <= n <= 255
    ensures InType(Short, n) <==> -32768 <= n <= 32767
    ensures InType(UShort, n) <==> 0 <= n <= 65535
    ensures InType(Int, n) <==> -2147483648 <= n <= 2147483647
    ensures (InType(UInt, n) <==> 0 <= n <= 4294967295) && (InType(Hex, n) <==> 0 <= n <= 4294967295)
  {
  }

  /** A cast changes a number exactly when it is outside the type, and then by a multiple of its size. */
  lemma CastIff(t: Type, n: int)
    ensures Cast(t, n) == n <==> InType(t, n)
    ensures (n - Cast(t, n)) % Modulus(t) == 0
  {
    hide Modulus;
    if InType(t, n) {
      CastSame(t, n);
    }
    var m := Modulus(t);
    SizePositive(t);
    var q := n / m;
    assert n == q * m + n % m;
    var k := if Cast(t, n) == n % m then q else q + 1;
    assert (q + 1) * m == q * m + m;
    DivModUnique(n - Cast(t, n), m, k, 0);
  }

  lemma SizePositive(t: Type)
    ensures Modulus(t) >= 1
  {
  }

  /** Decimal text, digit by digit: one more digit at the end is ten times the number, and a minus sign negates it. */
  lemma DecimalText(n: int, d: nat)
    requires n > 0 && d < 10
    ensures Decimal(d) == ["0123456789"[d]]
    ensures Decimal(10 * n + d) == Decimal(n) + ["0123456789"[d]]
    ensures Decimal(-n) == "-" + Decimal(n)
  {
    assert (10 * n + d) / 10 == n && (10 * n + d) % 10 == d;
    DigitsStep(10 * n + d, 10);
  }

  lemma HexTextIs(n: nat)
    requires n <= 4294967295
    ensures ToString(Number(Hex, n)) == "0x" + Digits(n, 16)
  {
    hide Cast, Digits;
    CastSame(Hex, n);
  }

  lemma HexDigits(n: nat, d: nat)
    requires 0 < n && d < 16
    ensures Digits(d, 16) == ["0123456789abcdef"[d]]
    ensures Digits(16 * n + d, 16) == Digits(n, 16) + ["0123456789abcdef"[d]]
  {
    hide Digits;
    assert (16 * n + d) / 16 == n && (16 * n + d) % 16 == d;
    DigitsStep(d, 16);
    DigitsStep(16 * n + d, 16);
  }

  /** The text of a hexadecimal value: 0x and lower-case digits. */
  lemma HexText(n: nat, d: nat)
    requires 0 < n && d < 16 && 16 * n + d <= 4294967295
    ensures ToString(Number(Hex, d)) == "0x" + ["0123456789abcdef"[d]]
    ensures ToString(Number(Hex, 16 * n + d)) == ToString(Number(Hex, n)) + ["0123456789abcdef"[d]]
  {
    hide ToString, Digits;
    HexTextIs(d);
    HexTextIs(n);
    HexTextIs(16 * n + d);
    HexDigits(n, d);
    var a, b := Digits(n, 16), ["0123456789abcdef"[d]];
    assert "0x" + (a + b) == ("0x" + a) + b;
  }

  /** The text is the decimal one of the value exactly when it fits an int; a larger unsigned value prints as negative. */
  lemma PrintsAsIntIff(t: Type, n: int)
    requires InType(t, n) && !t.Hex? && !t.Text?
    ensures ToString(Number(t, n)) == Decimal(n) <==> InType(Int, n)
    ensures !InType(Int, n) ==> ToString(Number(t, n)) == Decimal(n - 0x1_0000_0000)
  {
    CastIff(Int, n);
    if !InType(Int, n) {
      assert n % 0x1_0000_0000 == n;
    }
    DecimalRoundTrip(n);
    DecimalRoundTrip(Cast(Int, n));
  }

  predicate Blank(s: string) {
    forall i :: 0 <= i < |s| ==> s[i] == ' ' || s[i] == '\t' || s[i] == '\n' || s[i] == '\r'
  }

  lemma {:induction false} BlankSkipped(pad: string, s: string)
    requires Blank(pad) && |s| > 0 && !Space(s[0])
    ensures SkipSpace(pad + s) == s
    decreases |pad|
  {
    if |pad| == 0 {
      assert pad + s == s;
    } else {
      assert (pad + s)[1..] == pad[1..] + s;
      BlankSkipped(pad[1..], s);
    }
  }

  lemma DigitsThenRest(m: nat, rest: string)
    requires |rest| == 0 || !('0' <= rest[0] <= '9')
    ensures ParseDigits(Digits(m, 10) + rest, 10, 0) == m
  {
    DigitsRoundTrip(m, 10);
    ParseAppend(Digits(m, 10), rest, 10, 0);
  }

  /** Reading skips blanks in front, takes either sign, and ignores everything from the first character that is no digit. */
  lemma AtoiReads(pad: string, n: int, rest: string)
    requires Blank(pad) && (|rest| == 0 || !('0' <= rest[0] <= '9'))
    ensures Atoi(pad + Decimal(n) + rest) == n
    ensures n >= 0 ==> Atoi(pad + "+" + Decimal(n) + rest) == n
  {
    hide Digits, ParseDigits, DigitValue;
    var m := if n < 0 then -n else n;
    var d := Digits(m, 10);
    DigitsThenRest(m, rest);
    FirstDigit(m);
    var signed, plus := Decimal(n) + rest, "+" + d + rest;
    assert pad + Decimal(n) + rest == pad + signed;
    BlankSkipped(pad, signed);
    assert n < 0 ==> signed == "-" + (d + rest) && signed[1..] == d + rest;
    assert pad + "+" + d + rest == pad + plus && plus[1..] == d + rest;
    BlankSkipped(pad, plus);
  }

  lemma FirstDigit(m: nat)
    ensures '0' <= Digits(m, 10)[0] <= '9'
  {
    DigitsRoundTrip(m, 10);
    assert DigitValue(Digits(m, 10)[0]) < 10;
  }
}

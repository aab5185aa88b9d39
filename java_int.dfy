/**
 * Java's 32-bit `int`: wrap-around arithmetic, Integer.compare, and the decimal text
 * conversions the engine relies on (Integer.parseInt, Integer.toString and
 * String.format("%03d", n)). Only ASCII digits are recognised.
 */
module JavaInt {
  import opened Wrappers

  const MIN: int := -0x8000_0000
  const MAX: int := 0x7fff_ffff
  const MODULUS: int := 0x1_0000_0000

  type Int32 = x: int | MIN <= x <= MAX

  /** Two's-complement wrap-around of an exact result into an int. */
  function Wrap(x: int): (r: Int32)
    ensures MIN <= x <= MAX ==> r == x
  {
    (x - MIN) % MODULUS + MIN
  }

  /** A wrapped result differs from the exact one by a multiple of 2^32. */
  lemma WrapCongruent(x: int)
    ensures (x - Wrap(x)) % MODULUS == 0
  {
  }

  /** Adding after a wrap is the same as wrapping the exact sum. */
  lemma WrapAdd(a: int, b: int)
    ensures Wrap(Wrap(a) + b) == Wrap(a + b)
  {
    WrapCongruent(a);
    var k := (a - Wrap(a)) / MODULUS;
    assert a == Wrap(a) + k * MODULUS;
    ModShift(Wrap(a) + b - MIN, k);
  }

  lemma ModShift(x: int, k: int)
    ensures (x + k * MODULUS) % MODULUS == x % MODULUS
  {
  }

  /** Java's `x - y` on ints. */
  function Sub(x: Int32, y: Int32): Int32 {
    Wrap(x - y)
  }

  /** Integer.compare(x, y). */
  function Compare(x: int, y: int): (r: int)
    ensures r < 0 <==> x < y
    ensures r == 0 <==> x == y
  {
    if x < y then -1 else if x == y then 0 else 1
  }

  predicate IsDigit(c: char) {
    '0' <= c <= '9'
  }

  predicate AllDigits(s: string) {
    forall i :: 0 <= i < |s| ==> IsDigit(s[i])
  }

  function DigitChar(d: nat): (c: char)
    requires d < 10
    ensures IsDigit(c) && c as int - '0' as int == d
  {
    ('0' as int + d) as char
  }

  /** The number a run of decimal digits denotes; leading zeros are allowed. */
  function ValueOf(s: string): nat
    requires AllDigits(s)
  {
    if s == [] then 0 else ValueOf(s[..|s| - 1]) * 10 + (s[|s| - 1] as int - '0' as int)
  }

  /** The shortest decimal rendering of a natural number. */
  function Digits(n: nat): (s: string)
    ensures |s| >= 1 && AllDigits(s)
    ensures n > 0 ==> s[0] != '0'
  {
    if n < 10 then [DigitChar(n)] else Digits(n / 10) + [DigitChar(n % 10)]
  }

  function Zeros(k: nat): (s: string)
    ensures |s| == k && AllDigits(s)
    ensures forall i :: 0 <= i < k ==> s[i] == '0'
  {
    if k == 0 then "" else "0" + Zeros(k - 1)
  }

  /** Left-pads a digit string with zeros up to `width` characters. */
  function PadZeros(s: string, width: nat): (r: string)
    ensures r == (if |s| < width then Zeros(width - |s|) else "") + s
  {
    if |s| < width then Zeros(width - |s|) + s else s
  }

  /** Integer.toString(n), also what string concatenation prints for an int. */
  function ToString(n: int): string {
    if n < 0 then "-" + Digits(-n) else Digits(n)
  }

  /** String.format("%03d", n): at least three characters, zero-padded after the sign. */
  function Format03(n: int): (r: string)
    ensures |r| >= 3
    ensures r[0] == '-' <==> n < 0
  {
    if n < 0 then "-" + PadZeros(Digits(-n), 2) else PadZeros(Digits(n), 3)
  }

  /** Integer.parseInt(s): None where Java throws NumberFormatException. */
  function ParseInt(s: string): (r: Option<Int32>)
    ensures r.Some? ==> |s| > 0 && (s[0] == '-' || s[0] == '+' || IsDigit(s[0]))
    ensures r.Some? ==> forall i :: 1 <= i < |s| ==> IsDigit(s[i])
    ensures r.Some? ==> (r.value < 0 ==> s[0] == '-') && (r.value > 0 ==> s[0] != '-')
  {
    if |s| == 0 then None
    else
      var body := if s[0] == '-' || s[0] == '+' then s[1..] else s;
      if |body| == 0 || !AllDigits(body) then None
      else
        var v: int := if s[0] == '-' then 0 - ValueOf(body) else ValueOf(body);
        if MIN <= v <= MAX then Some(v) else None
  }

  lemma {:induction false} ValueOfDigits(n: nat)
    ensures ValueOf(Digits(n)) == n
  {
    if n >= 10 {
      ValueOfDigits(n / 10);
      var s := Digits(n);
      assert s[..|s| - 1] == Digits(n / 10);
    }
  }

  lemma {:induction false} ValueOfZeros(k: nat)
    ensures ValueOf(Zeros(k)) == 0
  {
    if k > 0 {
      var z := Zeros(k);
      assert z[..k - 1] == Zeros(k - 1);
      ValueOfZeros(k - 1);
    }
  }

  lemma {:induction false} ValueOfLeadingZeros(k: nat, s: string)
    requires AllDigits(s)
    ensures AllDigits(Zeros(k) + s) && ValueOf(Zeros(k) + s) == ValueOf(s)
  {
    if s == [] {
      assert Zeros(k) + s == Zeros(k);
      ValueOfZeros(k);
    } else {
      var t := Zeros(k) + s;
      assert t[..|t| - 1] == Zeros(k) + s[..|s| - 1];
      ValueOfLeadingZeros(k, s[..|s| - 1]);
    }
  }

  lemma PaddedValue(n: nat, width: nat)
    ensures AllDigits(PadZeros(Digits(n), width)) && ValueOf(PadZeros(Digits(n), width)) == n
    ensures |PadZeros(Digits(n), width)| >= 1
  {
    ValueOfDigits(n);
    if |Digits(n)| < width {
      ValueOfLeadingZeros(width - |Digits(n)|, Digits(n));
    }
  }

  /** How parseInt treats a run of digits, with or without a leading minus sign. */
  lemma ParseDigits(body: string, negative: bool, v: int)
    requires |body| >= 1 && AllDigits(body)
    requires v == if negative then 0 - ValueOf(body) else ValueOf(body)
    requires MIN <= v <= MAX
    ensures ParseInt((if negative then "-" else "") + body) == Some(v)
  {
    var s := (if negative then "-" else "") + body;
    assert s[0] == (if negative then '-' else body[0]);
    if negative {
      assert s[1..] == body;
    } else {
      assert s == body;
    }
  }

  /** Reading back what Integer.toString printed gives the same int. */
  lemma ParseToString(n: Int32)
    ensures ParseInt(ToString(n)) == Some(n)
  {
    if n < 0 {
      var m: nat := 0 - n as int;
      assert ToString(n) == "-" + Digits(m);
      ValueOfDigits(m);
      ParseRendered(Digits(m), true, m);
    } else {
      assert ToString(n) == "" + Digits(n);
      ValueOfDigits(n);
      ParseRendered(Digits(n), false, n);
    }
  }

  /** A sign and a digit string whose value is m and whose signed value fits. */
  lemma ParseRendered(body: string, negative: bool, m: nat)
    requires |body| >= 1 && AllDigits(body) && ValueOf(body) == m
    requires if negative then m <= -MIN else m <= MAX
    ensures ParseInt((if negative then "-" else "") + body) == Some(if negative then 0 - m else m)
  {
    ParseDigits(body, negative, if negative then 0 - m else m);
  }

  /** Reading back a "%03d" rendering gives the same int: the generated codes are numeric. */
  lemma ParseFormat03(n: Int32)
    ensures ParseInt(Format03(n)) == Some(n)
  {
    if n < 0 {
      var m: nat := 0 - n as int;
      assert Format03(n) == "-" + PadZeros(Digits(m), 2);
      ParsePadded(m, 2, true);
    } else {
      assert Format03(n) == "" + PadZeros(Digits(n), 3);
      ParsePadded(n, 3, false);
    }
  }

  lemma ParsePadded(m: nat, width: nat, negative: bool)
    requires if negative then m <= -MIN else m <= MAX
    ensures ParseInt((if negative then "-" else "") + PadZeros(Digits(m), width)) == Some(if negative then 0 - m else m)
  {
    PaddedValue(m, width);
    ParseRendered(PadZeros(Digits(m), width), negative, m);
  }
}

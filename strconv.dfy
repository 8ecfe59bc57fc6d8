/**
 * Go's strconv.Atoi and strconv.Itoa on a 64-bit platform, over strings of
 * bytes (a `char` stands for one byte; every character the parsers accept is ASCII).
 */
module Strconv {
  import opened Wrappers

  const MaxInt: int := 0x7fff_ffff_ffff_ffff
  const MinInt: int := -0x8000_0000_0000_0000
  const MaxUint64: int := 0xffff_ffff_ffff_ffff

  /** Go's `int`. */
  type Int = x: int | MinInt <= x <= MaxInt

  /** The two kinds of *strconv.NumError the parsers report. */
  datatype NumError = ErrSyntax | ErrRange

  predicate IsDigit(c: char) { '0' <= c <= '9' }

  predicate AllDigits(s: string) { forall i :: 0 <= i < |s| ==> IsDigit(s[i]) }

  function DigitVal(c: char): nat
    requires IsDigit(c)
  {
    c as int - '0' as int
  }

  function DigitChar(d: nat): (c: char)
    requires d < 10
    ensures IsDigit(c) && DigitVal(c) == d
  {
    ('0' as int + d) as char
  }

  /** The number a string of decimal digits denotes (leading zeros allowed). */
  function Value(s: string): nat
    requires AllDigits(s)
  {
    if s == [] then 0 else 10 * Value(s[..|s| - 1]) + DigitVal(s[|s| - 1])
  }

  function Pow10(k: nat): (r: nat)
    ensures r >= 1
  {
    if k == 0 then 1 else 10 * Pow10(k - 1)
  }

  /** Length of the longest prefix of `s` made of digits. */
  function DigitRun(s: string): (k: nat)
    ensures k <= |s| && AllDigits(s[..k])
    ensures k < |s| ==> !IsDigit(s[k])
  {
    if s == [] || !IsDigit(s[0]) then 0
    else
      var k := 1 + DigitRun(s[1..]);
      assert s[..k] == [s[0]] + s[1..][..k - 1];
      k
  }

  /**
   * strconv.ParseUint(s, 10, 64): digits are consumed left to right and
   * the range error is reported as soon as the prefix read so far no longer
   * fits in 64 bits, before a later non-digit is seen.
   */
  function ParseUint(s: string): (r: Result<nat, NumError>)
    ensures r.Ok? ==> s != [] && AllDigits(s) && r.value == Value(s) <= MaxUint64
  {
    if s == [] then Err(ErrSyntax)
    else
      var k := DigitRun(s);
      if Value(s[..k]) > MaxUint64 then Err(ErrRange)
      else if k < |s| then Err(ErrSyntax)
      else
        assert s[..k] == s;
        Ok(Value(s))
  }

  /**
   * strconv.Atoi (ParseInt(s, 10, 0) on a 64-bit platform): an optional
   * sign, then decimal digits; the fast path Go takes for inputs shorter
   * than 19 bytes gives the same results.
   */
  function Atoi(s: string): (r: Result<Int, NumError>)
    ensures r.Ok? ==> s != [] && (AllDigits(s) || ((s[0] == '-' || s[0] == '+') && AllDigits(s[1..])))
  {
    if s == [] then Err(ErrSyntax)
    else
      var neg := s[0] == '-';
      var body := if s[0] == '+' || s[0] == '-' then s[1..] else s;
      match ParseUint(body)
      case Err(e) => Err(e)
      case Ok(u) =>
        if !neg && u > MaxInt then Err(ErrRange)
        else if neg && u > -MinInt then Err(ErrRange)
        else
          var v: int := if neg then 0 - u else u;
          Ok(v)
  }

  /** Decimal digits of a natural number, without leading zeros. */
  function Digits(n: nat): (s: string)
    ensures |s| >= 1 && AllDigits(s)
    ensures Value(s) == n
    ensures n >= 1 ==> s[0] != '0'
    ensures n < 10 <==> |s| == 1
    ensures n < 100 <==> |s| <= 2
  {
    if n < 10 then [DigitChar(n)]
    else
      var s := Digits(n / 10) + [DigitChar(n % 10)];
      assert s[..|s| - 1] == Digits(n / 10);
      s
  }

  /** strconv.Itoa. */
  function Itoa(n: int): (s: string)
    ensures forall i :: 0 <= i < |s| ==> IsDigit(s[i]) || (i == 0 && s[i] == '-')
  {
    if n < 0 then "-" + Digits(-n) else Digits(n)
  }

  lemma {:induction false} ValueAppend(a: string, b: string)
    requires AllDigits(a) && AllDigits(b)
    ensures AllDigits(a + b)
    ensures Value(a + b) == Value(a) * Pow10(|b|) + Value(b)
    decreases |b|
  {
    if b == [] {
      assert a + b == a;
    } else {
      var b' := b[..|b| - 1];
      var d := DigitVal(b[|b| - 1]);
      assert (a + b)[..|a + b| - 1] == a + b';
      assert (a + b)[|a + b| - 1] == b[|b| - 1];
      ValueAppend(a, b');
      assert Value(a + b) == 10 * Value(a + b') + d;
      assert Value(b) == 10 * Value(b') + d;
      assert Pow10(|b|) == 10 * Pow10(|b'|);
      Distribute(Value(a), Pow10(|b'|), Value(b'), d);
    }
  }

  lemma Distribute(x: int, p: int, y: int, d: int)
    ensures 10 * (x * p + y) + d == x * (10 * p) + (10 * y + d)
  {
  }

  lemma {:induction false} ValueBound(s: string)
    requires AllDigits(s)
    ensures Value(s) < Pow10(|s|)
    decreases |s|
  {
    if s != [] {
      ValueBound(s[..|s| - 1]);
    }
  }

  /** A string of digits with a value that fits parses back to that value. */
  lemma ParseUintDigits(s: string)
    requires s != [] && AllDigits(s) && Value(s) <= MaxUint64
    ensures ParseUint(s) == Ok(Value(s))
  {
    assert s[..|s|] == s;
  }

  /** Itoa and Atoi are inverse on every Go int. */
  lemma AtoiItoa(n: Int)
    ensures Atoi(Itoa(n)) == Ok(n)
  {
    if n < 0 {
      var m: nat := 0 - n;
      var d := Digits(m);
      assert Itoa(n)[1..] == d;
      ParseUintDigits(d);
    } else {
      ParseUintDigits(Digits(n));
    }
  }

  /** Atoi of an unsigned string of digits: its value, or a range error past MaxInt. */
  lemma AtoiDigits(s: string)
    requires s != [] && AllDigits(s)
    ensures Value(s) <= MaxInt ==> Atoi(s) == Ok(Value(s))
    ensures Value(s) > MaxInt ==> Atoi(s) == Err(ErrRange)
  {
    assert s[..|s|] == s;
    assert !(s[0] == '+' || s[0] == '-');
  }

  /** A numeral is worth at least its leading digit. */
  lemma {:induction false} ValueLeading(s: string)
    requires s != [] && AllDigits(s)
    ensures Value(s) >= DigitVal(s[0])
    decreases |s|
  {
    if |s| > 1 {
      ValueLeading(s[..|s| - 1]);
    }
  }

  /** A canonical decimal is the decimal text of its value. */
  lemma {:induction false} DigitsValue(s: string)
    requires s != [] && AllDigits(s) && (|s| == 1 || s[0] != '0')
    ensures Digits(Value(s)) == s
    decreases |s|
  {
    var n := Value(s);
    var last := s[|s| - 1];
    var pre := s[..|s| - 1];
    assert n == 10 * Value(pre) + DigitVal(last);
    if |s| == 1 {
      assert pre == [];
    } else {
      assert pre[0] == s[0];
      ValueLeading(pre);
      DigitsValue(pre);
      LastDigit(Value(pre), last);
      assert s == pre + [last];
    }
  }

  /** Appending a digit multiplies by ten and adds it: division and remainder by ten undo that. */
  lemma LastDigit(a: nat, c: char)
    requires IsDigit(c)
    ensures var n := 10 * a + DigitVal(c);
            n >= 10 * a && n / 10 == a && DigitChar(n % 10) == c
  {
    var d := DigitVal(c);
    assert (10 * a + d) / 10 == a && (10 * a + d) % 10 == d;
  }

  /** 2^64: Go's int arithmetic on a 64-bit platform is modulo this. */
  const Modulus: int := 0x1_0000_0000_0000_0000

  /**
   * Go's wrap-around of an `int` result on a 64-bit platform (two's
   * complement): shift by 2^64 until the value is in range.
   */
  function Wrap(x: int): (r: Int)
    ensures MinInt <= x <= MaxInt ==> r == x
    decreases if x > MaxInt then x - MaxInt else if x < MinInt then MinInt - x else 0
  {
    if x > MaxInt then Wrap(x - Modulus)
    else if x < MinInt then Wrap(x + Modulus)
    else x
  }

  /** The wrapped value differs from the exact one by a multiple of 2^64. */
  lemma {:induction false} WrapCongruent(x: int)
    ensures (Wrap(x) - x) % Modulus == 0
    decreases if x > MaxInt then x - MaxInt else if x < MinInt then MinInt - x else 0
  {
    if x > MaxInt {
      WrapCongruent(x - Modulus);
    } else if x < MinInt {
      WrapCongruent(x + Modulus);
    }
  }

  /** The wrapped value is the only Go int congruent to the exact one modulo 2^64. */
  lemma WrapUnique(x: int, r: Int)
    requires (r - x) % Modulus == 0
    ensures Wrap(x) == r
  {
    WrapCongruent(x);
    var w := Wrap(x);
    assert (r - w) % Modulus == 0 by {
      var q1 := (r - x) / Modulus;
      var q2 := (w - x) / Modulus;
      assert r - x == q1 * Modulus;
      assert w - x == q2 * Modulus;
      assert r - w == (q1 - q2) * Modulus;
    }
  }

  /** Wrapping an intermediate result does not change the wrapped final one. */
  lemma WrapAdd(a: int, b: int)
    ensures Wrap(Wrap(a) + b) == Wrap(a + b)
  {
    WrapCongruent(a);
    WrapCongruent(a + b);
    var r := Wrap(a + b);
    assert (r - (Wrap(a) + b)) % Modulus == 0 by {
      var q1 := (r - (a + b)) / Modulus;
      var q2 := (Wrap(a) - a) / Modulus;
      assert r - (a + b) == q1 * Modulus;
      assert Wrap(a) - a == q2 * Modulus;
      assert r - (Wrap(a) + b) == (q1 - q2) * Modulus;
    }
    WrapUnique(Wrap(a) + b, r);
  }
}

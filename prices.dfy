/**
 * The Price type of item/util: an amount in minor units (tetri for GEL,
 * cents for dollars) held in a Go int, parsed from and rendered to text
 * with exactly two fractional digits.
 */
module Prices {
  import opened Wrappers
  import opened Strconv

  /** Integer part of priceRE: `[1-9][0-9]*|0`. */
  predicate IntPart(a: string)
  {
    a == "0" || (a != [] && '1' <= a[0] <= '9' && AllDigits(a))
  }

  /** Optional fractional part of priceRE: `(\.[0-9][0-9]?)?`. */
  predicate FracPart(b: string)
  {
    b == "" || (b[0] == '.' && 2 <= |b| <= 3 && AllDigits(b[1..]))
  }

  /** The whole of `s` matches `^([1-9][0-9]*|0)(\.[0-9][0-9]?)?$`. */
  predicate MatchesPriceRE(s: string)
  {
    exists i :: 0 <= i <= |s| && IntPart(s[..i]) && FracPart(s[i..])
  }

  /** Index of the first '.' in `s`, or |s| when there is none. */
  function DotIndex(s: string): (i: nat)
    ensures i <= |s| && '.' !in s[..i]
    ensures i < |s| ==> s[i] == '.'
  {
    if s == [] then 0
    else if s[0] == '.' then 0
    else
      var i := 1 + DotIndex(s[1..]);
      assert s[..i] == [s[0]] + s[1..][..i - 1];
      i
  }

  /**
   * priceRE.FindStringSubmatch(s): the two capture groups (match[1],
   * match[2]) when the whole string matches, None for a nil match.
   */
  function PriceGroups(s: string): (g: Option<(string, string)>)
    ensures g.Some? ==> s == g.value.0 + g.value.1 && IntPart(g.value.0) && FracPart(g.value.1)
  {
    var i := DotIndex(s);
    if IntPart(s[..i]) && FracPart(s[i..]) then
      assert s == s[..i] + s[i..];
      Some((s[..i], s[i..]))
    else None
  }

  /** The first '.' is at `i` when none comes before it and `s[i]` is '.' or the end. */
  lemma {:induction false} DotIndexAt(s: string, i: nat)
    requires i <= |s| && '.' !in s[..i]
    requires i < |s| ==> s[i] == '.'
    ensures DotIndex(s) == i
  {
    if i > 0 {
      assert s[0] == s[..i][0];
      assert s[1..][..i - 1] == s[..i][1..];
      DotIndexAt(s[1..], i - 1);
    }
  }

  /** The regular expression has exactly one way to match, and PriceGroups finds it. */
  lemma PriceGroupsMatch(s: string)
    ensures PriceGroups(s).Some? <==> MatchesPriceRE(s)
    ensures forall i :: 0 <= i <= |s| && IntPart(s[..i]) && FracPart(s[i..]) ==>
              PriceGroups(s) == Some((s[..i], s[i..]))
  {
    var d := DotIndex(s);
    if PriceGroups(s).Some? {
      assert IntPart(s[..d]) && FracPart(s[d..]);
    }
    forall i | 0 <= i <= |s| && IntPart(s[..i]) && FracPart(s[i..])
      ensures DotIndex(s) == i
    {
      assert forall j :: 0 <= j < i ==> IsDigit(s[..i][j]);
      if i < |s| {
        assert s[i..][0] == s[i];
      }
      DotIndexAt(s, i);
    }
  }

  /** Minor units written by a fractional part: ".5" is 50, ".05" is 5, none is 0. */
  function Cents(b: string): (c: nat)
    requires FracPart(b)
    ensures c < 100
  {
    if b == "" then 0
    else if |b| == 2 then 10 * DigitVal(b[1])
    else 10 * DigitVal(b[1]) + DigitVal(b[2])
  }

  /** The amount a matching price text denotes, in minor units. */
  function Amount(a: string, b: string): nat
    requires IntPart(a) && FracPart(b)
  {
    Value(a) * 100 + Cents(b)
  }

  datatype PriceError = InvalidPrice | Num(e: NumError)

  /**
   * (*Price).Set: parse `s` into the receiver, whose value was `p`. The
   * result is the receiver's value afterwards and the error returned; on
   * any error the receiver keeps `p`.
   */
  function Set(p: Int, s: string): (r: (Int, Option<PriceError>))
    ensures r.1.Some? ==> r.0 == p
    ensures r.1.None? <==> MatchesPriceRE(s) && Amount(PriceGroups(s).value.0, PriceGroups(s).value.1) <= MaxInt
    ensures !MatchesPriceRE(s) ==> r.1 == Some(InvalidPrice)
    ensures MatchesPriceRE(s) ==>
              var (a, b) := PriceGroups(s).value;
              if Amount(a, b) <= MaxInt then r == (Amount(a, b), None) else r == (p, Some(Num(ErrRange)))
  {
    PriceGroupsMatch(s);
    match PriceGroups(s)
    case None => (p, Some(InvalidPrice))
    case Some((intPart, frac)) =>
      var digits := intPart + Padded(frac);
      AtoiAmount(intPart, frac);
      match Atoi(digits)
      case Err(e) => (p, Some(Num(e)))
      case Ok(n) => (n, None)
  }

  /**
   * The fractional digits Set appends to the integer part:
   * strings.Replace(match[2], ".", "", 1) right-padded with "0" to two digits.
   */
  function Padded(frac: string): (d: string)
    requires FracPart(frac)
    ensures |d| == 2 && AllDigits(d) && Value(d) == Cents(frac)
  {
    var sub := if frac == "" then "" else frac[1..];
    var padded := sub + Zeros(2 - |sub|);
    assert padded[..1] == [padded[0]];
    assert Value(padded[..1]) == DigitVal(padded[0]);
    padded
  }

  lemma AtoiAmount(intPart: string, frac: string)
    requires IntPart(intPart) && FracPart(frac)
    ensures Amount(intPart, frac) <= MaxInt ==> Atoi(intPart + Padded(frac)) == Ok(Amount(intPart, frac))
    ensures Amount(intPart, frac) > MaxInt ==> Atoi(intPart + Padded(frac)) == Err(ErrRange)
  {
    ValueAppend(intPart, Padded(frac));
    AtoiDigits(intPart + Padded(frac));
  }

  /** strings.Repeat("0", k). */
  function Zeros(k: nat): (z: string)
    ensures |z| == k && AllDigits(z)
    ensures forall i :: 0 <= i < k ==> z[i] == '0'
  {
    if k == 0 then "" else Zeros(k - 1) + "0"
  }

  /** The canonical text of an amount: optional '-', integer part, '.', two digits. */
  predicate Renders(s: string, v: int)
  {
    |s| >= 1 &&
    (s[0] == '-' <==> v < 0) &&
    var body := if v < 0 then s[1..] else s;
    |body| >= 4 && body[|body| - 3] == '.' &&
    IntPart(body[..|body| - 3]) && AllDigits(body[|body| - 2..]) &&
    Value(body[..|body| - 3]) * 100 + Value(body[|body| - 2..]) == (if v < 0 then -v else v)
  }

  /**
   * (*Price).String. The negation `n *= -1` wraps for the most negative
   * int, which then renders as "-0.0-9223372036854775808": a second minus
   * sign after the point.
   */
  function String(p: Int): string
  {
    var n := if p < 0 then Wrap(p as int * -1) else p;
    var d := Itoa(n);
    var body :=
      if n < 10 then "0.0" + d
      else if n < 100 then "0." + d
      else d[..|d| - 2] + "." + d[|d| - 2..];
    if p < 0 then "-" + body else body
  }

  /** What String renders: the canonical text of the amount, except for the most negative int. */
  lemma StringRenders(p: Int)
    ensures p != MinInt ==> Renders(String(p), p)
    ensures p == MinInt ==> |String(p)| >= 5 && String(p)[..5] == "-0.0-"
  {
    var n := if p < 0 then Wrap(p as int * -1) else p;
    var d := Itoa(n);
    var body :=
      if n < 10 then "0.0" + d
      else if n < 100 then "0." + d
      else d[..|d| - 2] + "." + d[|d| - 2..];
    StringBody(n, d, body);
    if p < 0 {
      NegatedRenders(p, n, body);
    }
  }

  lemma NegatedRenders(p: Int, n: Int, body: string)
    requires p < 0 && n == Wrap(p as int * -1)
    requires n >= 0 ==> Renders(body, n) && body[0] != '-'
    requires n < 0 ==> |body| >= 5 && body[..4] == "0.0-"
    ensures p != MinInt ==> Renders("-" + body, p)
    ensures p == MinInt ==> |"-" + body| >= 5 && ("-" + body)[..5] == "-0.0-"
  {
    if p == MinInt {
      assert n == MinInt;
    } else {
      assert n == -p;
      assert ("-" + body)[1..] == body;
    }
  }

  lemma StringBody(n: Int, d: string, body: string)
    requires d == Itoa(n)
    requires body == if n < 10 then "0.0" + d
                     else if n < 100 then "0." + d
                     else d[..|d| - 2] + "." + d[|d| - 2..]
    ensures n >= 0 ==> Renders(body, n) && body[0] != '-'
    ensures n < 0 ==> |body| >= 5 && body[..4] == "0.0-"
  {
    if n >= 0 {
      if n < 10 {
        OneDigitBody(n, d, body);
      } else if n < 100 {
        TwoDigitBody(n, d, body);
      } else {
        LongBody(n, d, body);
      }
    } else {
      assert body == "0.0" + d && d[0] == '-';
    }
  }

  lemma OneDigitBody(n: nat, d: string, body: string)
    requires n < 10 && d == Digits(n) && body == "0.0" + d
    ensures Renders(body, n) && body[0] != '-'
  {
    var ip, f := body[..|body| - 3], body[|body| - 2..];
    assert ip == "0" && f == "0" + d;
    ValueAppend("0", d);
  }

  lemma TwoDigitBody(n: nat, d: string, body: string)
    requires 10 <= n < 100 && d == Digits(n) && body == "0." + d
    ensures Renders(body, n) && body[0] != '-'
  {
    assert body[..|body| - 3] == "0" && body[|body| - 2..] == d;
  }

  lemma LongBody(n: nat, d: string, body: string)
    requires 100 <= n && d == Digits(n) && body == d[..|d| - 2] + "." + d[|d| - 2..]
    ensures Renders(body, n) && body[0] != '-'
  {
    var ip, f := d[..|d| - 2], d[|d| - 2..];
    assert body[..|body| - 3] == ip && body[|body| - 2..] == f;
    assert d == ip + f;
    assert ip[0] == d[0];
    ValueAppend(ip, f);
  }

  /** A rendered non-negative amount matches priceRE, and its groups denote that amount. */
  lemma RenderedGroups(s: string, n: nat)
    requires Renders(s, n)
    ensures MatchesPriceRE(s)
    ensures PriceGroups(s) == Some((s[..|s| - 3], s[|s| - 3..]))
    ensures Amount(s[..|s| - 3], s[|s| - 3..]) == n
  {
    var i := |s| - 3;
    var f := s[|s| - 2..];
    assert s[i..][1..] == f;
    assert s[i..][0] == '.';
    assert AllDigits(s[i..][1..]);
    assert |s[i..]| == 3;
    assert IntPart(s[..i]);
    assert FracPart(s[i..]);
    PriceGroupsMatch(s);
    assert f[..1] == [f[0]];
    assert Value(f[..1]) == DigitVal(f[0]);
    assert s[i..][1] == f[0] && s[i..][2] == f[1];
    assert Cents(s[i..]) == Value(f);
  }

  /** Round trip: the text String renders for a non-negative price is parsed back by Set to the same price. */
  lemma SetString(n: Int, p: Int)
    requires n >= 0
    ensures Set(p, String(n)) == (n, None)
  {
    StringRenders(n);
    RenderedGroups(String(n), n);
  }

  /** Set accepts `a + b` when `a` and `b` are the two groups of priceRE. */
  lemma SetAccepts(p: Int, a: string, b: string)
    requires IntPart(a) && FracPart(b) && Amount(a, b) <= MaxInt
    ensures Set(p, a + b) == (Amount(a, b), None)
  {
    var s := a + b;
    assert s[..|a|] == a && s[|a|..] == b;
    PriceGroupsMatch(s);
  }

  /** Set rejects a text whose integer part (everything before the first '.') or remainder is malformed. */
  lemma SetRejects(p: Int, s: string, i: nat)
    requires i <= |s| && '.' !in s[..i] && (i < |s| ==> s[i] == '.')
    requires !(IntPart(s[..i]) && FracPart(s[i..]))
    ensures Set(p, s) == (p, Some(InvalidPrice))
  {
    DotIndexAt(s, i);
    PriceGroupsMatch(s);
  }

  /** Worked example of Set: one fractional digit is padded. */
  lemma SetAcceptExamples(p: Int)
    ensures Set(p, "3.5") == (350, None)
  {
    assert Value("3") == 3;
    assert Amount("3", ".5") == 350;
    SetAccepts(p, "3", ".5");
    assert "3" + ".5" == "3.5";
  }

  /** Worked example of Set: no fractional part means whole units. */
  lemma SetAcceptWhole(p: Int)
    ensures Set(p, "3") == (300, None)
  {
    assert Value("3") == 3;
    assert Amount("3", "") == 300;
    SetAccepts(p, "3", "");
    assert "3" + "" == "3";
  }

  /** Worked example of Set: two fractional digits are minor units. */
  lemma SetAcceptCents(p: Int)
    ensures Set(p, "0.05") == (5, None)
  {
    assert Value("0") == 0;
    assert Amount("0", ".05") == 5;
    SetAccepts(p, "0", ".05");
    assert "0" + ".05" == "0.05";
  }

  /** Worked examples of Set: shapes priceRE refuses leave the receiver unchanged. */
  lemma SetRejectExamples(p: Int)
    ensures Set(p, "3.") == (p, Some(InvalidPrice))
    ensures Set(p, "-1") == (p, Some(InvalidPrice))
    ensures Set(p, "01") == (p, Some(InvalidPrice))
    ensures Set(p, "3.555") == (p, Some(InvalidPrice))
    ensures Set(p, "") == (p, Some(InvalidPrice))
  {
    SetRejects(p, "3.", 1);
    SetRejects(p, "-1", 2);
    SetRejects(p, "01", 2);
    SetRejects(p, "3.555", 1);
    SetRejects(p, "", 0);
  }

  /** Worked examples of String, including the delivery charge shown as "5.00". */
  lemma StringExamples()
    ensures String(5) == "0.05"
    ensures String(100) == "1.00"
    ensures String(500) == "5.00"
    ensures String(-250) == "-2.50"
  {
    assert Digits(5) == "5";
    assert Digits(10) == "10";
    assert Digits(100) == "100";
    assert Digits(50) == "50";
    assert Digits(500) == "500";
    assert Digits(25) == "25";
    assert Digits(250) == "250";
  }
}

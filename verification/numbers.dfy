/**
 The numeric steps of parsing a snooze time, in exact arithmetic:
 `float.Parse` of the matched run of digits and points (with the invariant
 culture), and `Convert.ToInt32`, which rounds to the nearest integer with ties
 going to the even neighbour and throws when the result is outside `int`.
 */
module Numbers {
  import opened Text
  import opened Results
  import opened Pattern

  const Int32Min: int := -0x8000_0000
  const Int32Max: int := 0x7FFF_FFFF

  /** C#'s `int`. */
  type Int32 = n: int | -0x8000_0000 <= n <= 0x7FFF_FFFF

  predicate IsInt32(n: int) {
    Int32Min <= n <= Int32Max
  }

  /** The value of the low 32 bits of `n` read as a two's-complement `int`. */
  function Wrap32(n: int): (r: Int32)
    ensures (r - n) % 0x1_0000_0000 == 0
    ensures IsInt32(n) ==> r == n
  {
    (n - Int32Min) % 0x1_0000_0000 + Int32Min
  }

  /** C#'s unary minus on `int`: negating int.MinValue wraps back to int.MinValue. */
  function Negate32(n: Int32): (r: Int32)
    ensures n != Int32Min ==> r == -n
    ensures n == Int32Min ==> r == Int32Min
  {
    if n == Int32Min then n else -n
  }

  /** Negate32 is the exact negation reduced to 32 bits. */
  lemma Negate32Wraps(n: Int32)
    ensures Negate32(n) == Wrap32(-(n as int))
  {
  }

  function Abs(n: int): nat {
    if n < 0 then -n else n
  }

  function Pow10(n: nat): (r: nat)
    ensures r >= 1
  {
    if n == 0 then 1 else 10 * Pow10(n - 1)
  }

  /** An exact decimal: `digits / 10^scale`. */
  datatype Decimal = Decimal(digits: nat, scale: nat)

  predicate IsNumberRun(s: string) {
    forall p :: 0 <= p < |s| ==> IsNumberChar(s[p])
  }

  /** What `float.Parse` accepts among runs of `[0-9.]`: a digit somewhere and at most one point. */
  predicate WellFormedNumber(s: string) {
    && (exists p :: 0 <= p < |s| && IsDigit(s[p]))
    && forall p, q :: 0 <= p < q < |s| && s[p] == '.' ==> s[q] != '.'
  }

  /** Index of the first point, or `|s|` when there is none. */
  function FirstPoint(s: string): (p: nat)
    ensures p <= |s|
    ensures forall q :: 0 <= q < p ==> s[q] != '.'
    ensures p < |s| ==> s[p] == '.'
  {
    if |s| == 0 then 0
    else if s[0] == '.' then 0
    else 1 + FirstPoint(s[1..])
  }

  /**
   `float.Parse(run, CultureInfo.InvariantCulture)` on a run of digits and
   points: "5", "5.", ".5" and "1.25" are numbers; ".", "1.2.3" are not.
   */
  function ParseDecimal(run: string): (r: Option<Decimal>)
    requires IsNumberRun(run)
    ensures r.Some? <==> WellFormedNumber(run)
  {
    var p := FirstPoint(run);
    if p == |run| then
      assert AllDigits(run);
      if |run| == 0 then None else Some(Decimal(DigitsValue(run), 0))
    else
      var whole := run[..p];
      var fraction := run[p + 1..];
      if FirstPoint(fraction) < |fraction| then
        assert run[p + 1 + FirstPoint(fraction)] == '.';
        None
      else
        var digits := whole + fraction;
        assert forall q :: 0 <= q < |digits| ==> digits[q] == if q < p then run[q] else run[q + 1];
        assert AllDigits(digits);
        if |digits| == 0 then
          assert |run| == 1;
          None
        else
          assert IsDigit(run[if 0 < p then 0 else 1]);
          Some(Decimal(DigitsValue(digits), |fraction|))
  }

  /** A run of digits is the integer it spells. */
  lemma ParseIntegerLiteral(s: string)
    requires 0 < |s| && AllDigits(s)
    ensures ParseDecimal(s) == Some(Decimal(DigitsValue(s), 0))
  {
    assert FirstPoint(s) == |s|;
  }

  /** `a.b` is the digits of `a` and `b` together, scaled down by the length of `b`. */
  lemma ParseFractionLiteral(a: string, b: string)
    requires AllDigits(a) && AllDigits(b) && 0 < |a| + |b|
    ensures ParseDecimal(a + "." + b) == Some(Decimal(DigitsValue(a + b), |b|))
  {
    var s := a + "." + b;
    assert s[|a|] == '.';
    assert forall q :: 0 <= q < |a| ==> s[q] == a[q];
    var p := FirstPoint(s);
    assert p == |a|;
    assert s[..p] == a;
    assert s[p + 1..] == b;
  }

  /** `Convert.ToInt32` of `num / den`: the nearest integer, ties to the even one. */
  function RoundHalfEven(num: int, den: int): (r: int)
    requires den > 0
    ensures 2 * Abs(num - r * den) <= den
    ensures 2 * Abs(num - r * den) == den ==> r % 2 == 0
  {
    var q := num / den;
    var rem := num % den;
    assert num - q * den == rem;
    assert num - (q + 1) * den == rem - den;
    if 2 * rem < den then q
    else if 2 * rem > den then q + 1
    else if q % 2 == 0 then q
    else q + 1
  }

  ghost predicate IsRounding(num: int, den: int, r: int)
    requires den > 0
  {
    2 * Abs(num - r * den) <= den && (2 * Abs(num - r * den) == den ==> r % 2 == 0)
  }

  /** Half-to-even rounding has exactly one answer. */
  lemma RoundingUnique(num: int, den: int, r1: int, r2: int)
    requires den > 0 && IsRounding(num, den, r1) && IsRounding(num, den, r2)
    ensures r1 == r2
  {
    var d1 := num - r1 * den;
    var d2 := num - r2 * den;
    assert -den <= 2 * d1 <= den && -den <= 2 * d2 <= den;
    assert (r2 - r1) * den == d1 - d2 by {
      assert r2 * den - r1 * den == (r2 - r1) * den;
    }
    UnitBound(r2 - r1, den);
  }

  lemma UnitBound(x: int, den: int)
    requires den > 0 && -den <= x * den <= den
    ensures -1 <= x <= 1
  {
  }

  /** A whole number of units rounds to itself. */
  lemma RoundExact(n: int, den: int)
    requires den > 0
    ensures RoundHalfEven(n * den, den) == n
  {
    assert n * den - n * den == 0;
    RoundingUnique(n * den, den, n, RoundHalfEven(n * den, den));
  }

  /** Rounding commutes with negation, so a magnitude may be rounded before or after its sign is applied. */
  lemma RoundNegate(num: int, den: int)
    requires den > 0
    ensures RoundHalfEven(-num, den) == -RoundHalfEven(num, den)
  {
    var r := RoundHalfEven(num, den);
    assert -num - (-r) * den == -(num - r * den);
    RoundingUnique(-num, den, -r, RoundHalfEven(-num, den));
  }

  /** A quotient of at least one rounds to at least one. */
  lemma RoundAtLeastOne(num: int, den: int)
    requires den > 0 && num >= den
    ensures RoundHalfEven(num, den) >= 1
  {
  }
}

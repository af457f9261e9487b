/** Quota conversions: saturation to 32 bits, truncation, rounding half away from zero
    (common/quota_math.go). */
module QuotaMath {
  import opened Floats
  import opened Options

  const MAX_QUOTA := 0x7FFF_FFFF
  const MIN_QUOTA := -0x8000_0000

  datatype ClampKind = Overflow | Underflow | NotANumber

  datatype Conversion = Conversion(quota: int, clamp: Option<ClampKind>)

  /** `int(value)`: toward zero. */
  function Truncate(r: real): int {
    if r >= 0.0 then r.Floor else -((-r).Floor)
  }

  /** `math.Round`: half away from zero. */
  function RoundAway(r: real): int {
    if r >= 0.0 then (r + 0.5).Floor else -((0.5 - r).Floor)
  }

  /** `saturateQuota`. */
  function Saturate(v: Float): Conversion {
    match v
    case NaN => Conversion(0, Some(NotANumber))
    case PosInf => Conversion(MAX_QUOTA, Some(Overflow))
    case NegInf => Conversion(MIN_QUOTA, Some(Underflow))
    case Fin(r) =>
      if r >= MAX_QUOTA as real then Conversion(MAX_QUOTA, Some(Overflow))
      else if r <= MIN_QUOTA as real then Conversion(MIN_QUOTA, Some(Underflow))
      else Conversion(Truncate(r), None)
  }

  function RoundFloat(v: Float): Float {
    if v.Fin? then Fin(RoundAway(v.r) as real) else v
  }

  function FromFloat(v: Float): Conversion {
    Saturate(v)
  }

  function Round(v: Float): Conversion {
    Saturate(RoundFloat(v))
  }

  /** An arbitrary-precision decimal: coef times ten to the power exp. */
  datatype Decimal = Decimal(coef: int, exp: int)

  function Pow10(n: nat): (p: nat)
    ensures p >= 1
  {
    if n == 0 then 1 else 10 * Pow10(n - 1)
  }

  function ValueOf(d: Decimal): real {
    if d.exp >= 0 then (d.coef * Pow10(d.exp)) as real
    else d.coef as real / Pow10(-d.exp) as real
  }

  /** The quotient of natural numbers, halves rounded up. */
  function HalfUp(n: nat, unit: nat): nat
    requires unit >= 1
  {
    n / unit + if 2 * (n % unit) >= unit then 1 else 0
  }

  /** `decimal.Round(0)` on the integer coefficient: half away from zero. */
  function RoundDecimal(d: Decimal): int {
    if d.exp >= 0 then d.coef * Pow10(d.exp)
    else if d.coef >= 0 then HalfUp(d.coef, Pow10(-d.exp))
    else 0 - HalfUp(-d.coef, Pow10(-d.exp))
  }

  function FromDecimal(d: Decimal): Conversion {
    Saturate(Fin(RoundDecimal(d) as real))
  }

  /** `strictQuota`. */
  function Strict(c: Conversion): Option<int> {
    if c.clamp.Some? then None else Some(c.quota)
  }

  function Negate(v: Float): Float {
    match v
    case NaN => NaN
    case PosInf => NegInf
    case NegInf => PosInf
    case Fin(r) => Fin(-r)
  }

  /** The order of numbers; a NaN is not ordered. */
  predicate AtMost(a: Float, b: Float) {
    !a.NaN? && !b.NaN? && !Greater(a, b)
  }

  lemma TruncateMeaning(r: real)
    ensures r >= 0.0 ==> 0.0 <= Truncate(r) as real <= r < Truncate(r) as real + 1.0
    ensures r <= 0.0 ==> Truncate(r) as real - 1.0 < r <= Truncate(r) as real <= 0.0
  {
  }

  /** Rounding gives the nearest integer; of two equally near ones, the one farther from zero. */
  lemma RoundMeaning(r: real)
    ensures -0.5 <= RoundAway(r) as real - r <= 0.5
    ensures r >= 0.0 ==> RoundAway(r) as real - r > -0.5
    ensures r <= 0.0 ==> RoundAway(r) as real - r < 0.5
    ensures RoundAway(-r) == -RoundAway(r)
  {
    if r == 0.0 { assert RoundAway(r) == 0; }
  }

  lemma RoundUnique(r: real, n: int)
    requires -0.5 <= n as real - r <= 0.5
    requires r > 0.0 ==> n as real - r > -0.5
    requires r < 0.0 ==> n as real - r < 0.5
    requires r == 0.0 ==> n == 0
    ensures n == RoundAway(r)
  {
    RoundMeaning(r);
    var m := RoundAway(r);
    assert -1.0 < n as real - m as real < 1.0;
  }

  lemma RoundMonotone(a: real, b: real)
    requires a <= b
    ensures RoundAway(a) <= RoundAway(b)
  {
  }

  /** No clamp exactly on the finite values strictly inside the range; the two bounds are reported as clamped. */
  lemma ClampIff(v: Float)
    ensures Saturate(v).clamp.None? <==> v.Fin? && MIN_QUOTA as real < v.r < MAX_QUOTA as real
    ensures MIN_QUOTA <= Saturate(v).quota <= MAX_QUOTA
    ensures Strict(Saturate(v)).Some? <==> Saturate(v).clamp.None?
    ensures Strict(Saturate(v)).Some? ==> Strict(Saturate(v)).value == Saturate(v).quota
  {
    if v.Fin? { TruncateMeaning(v.r); }
  }

  /** Which clamp is reported, and what is returned: a bound, zero for NaN, otherwise the value
      without its fraction. */
  lemma SaturateMeaning(v: Float)
    ensures v.NaN? ==> Saturate(v) == Conversion(0, Some(NotANumber))
    ensures v.PosInf? || (v.Fin? && v.r >= 2147483647.0) ==> Saturate(v) == Conversion(2147483647, Some(Overflow))
    ensures v.NegInf? || (v.Fin? && v.r <= -2147483648.0) ==> Saturate(v) == Conversion(-2147483648, Some(Underflow))
    ensures v.Fin? && 0.0 <= v.r < 2147483647.0 ==> var q := Saturate(v).quota as real; q <= v.r < q + 1.0
    ensures v.Fin? && -2147483648.0 < v.r <= 0.0 ==> var q := Saturate(v).quota as real; q - 1.0 < v.r <= q
  {
    if v.Fin? { TruncateMeaning(v.r); }
  }

  /** A charge never turns into a credit. */
  lemma SignKept(v: Float)
    ensures Greater(v, Fin(0.0)) ==> FromFloat(v).quota >= 0 && Round(v).quota >= 0
    ensures Greater(Fin(0.0), v) ==> FromFloat(v).quota <= 0 && Round(v).quota <= 0
  {
    if v.Fin? {
      TruncateMeaning(v.r);
      RoundMeaning(v.r);
      TruncateMeaning(RoundAway(v.r) as real);
    }
  }

  lemma SaturateMonotone(a: Float, b: Float)
    requires AtMost(a, b)
    ensures Saturate(a).quota <= Saturate(b).quota
  {
    ClampIff(a);
    ClampIff(b);
    if a.Fin? && b.Fin? {
      TruncateMeaning(a.r);
      TruncateMeaning(b.r);
    }
  }

  /** All conversions are monotone on everything but NaN. */
  lemma ConversionsMonotone(a: Float, b: Float)
    requires AtMost(a, b)
    ensures FromFloat(a).quota <= FromFloat(b).quota
    ensures Round(a).quota <= Round(b).quota
  {
    SaturateMonotone(a, b);
    if a.Fin? && b.Fin? { RoundMonotone(a.r, b.r); }
    SaturateMonotone(RoundFloat(a), RoundFloat(b));
  }

  /** Conversion commutes with negation exactly below two to the thirty-first; the int32 range
      is not symmetric. */
  lemma OddSymmetryIff(v: Float)
    ensures Saturate(Negate(v)).quota == -Saturate(v).quota <==>
              v.NaN? || (v.Fin? && -2147483648.0 < v.r < 2147483648.0)
  {
    if v.Fin? {
      TruncateMeaning(v.r);
      TruncateMeaning(-v.r);
      if v.r >= 2147483647.0 {
        assert v.r < 2147483648.0 ==> Truncate(-v.r) == -2147483647;
      } else if v.r <= -2147483647.0 {
        assert v.r > -2147483648.0 ==> Truncate(v.r) == -2147483647;
      }
    }
  }

  lemma HalfUpSlack(n: nat, unit: nat)
    requires unit >= 1
    ensures var slack := 2 * (HalfUp(n, unit) * unit - n); 0 < slack + unit && slack <= unit
  {
    assert n == n / unit * unit + n % unit;
    assert (n / unit + 1) * unit == n / unit * unit + unit;
  }

  lemma ScaleSlack(h: int, n: int, unit: int, gap: int)
    requires unit >= 1 && gap == h * unit - n
    ensures gap as real == (h as real - n as real / unit as real) * unit as real
  {
    var x, u := n as real / unit as real, unit as real;
    assert x * u == n as real;
    assert (h * unit) as real == h as real * u;
    assert (h as real - x) * u == h as real * u - x * u;
  }

  /** An integer that near in units is that near to the fraction. */
  lemma NearFraction(h: int, n: int, unit: int, gap: int)
    requires unit >= 1 && gap == h * unit - n && 0 < 2 * gap + unit && 2 * gap <= unit
    ensures -0.5 < h as real - n as real / unit as real <= 0.5
  {
    ScaleSlack(h, n, unit, gap);
    DivideOut(h as real - n as real / unit as real, unit, gap);
  }

  /** Quotient and remainder give the nearest integer of the fraction. */
  lemma HalfUpNearest(n: nat, unit: nat)
    requires unit >= 1
    ensures HalfUp(n, unit) == RoundAway(n as real / unit as real)
  {
    HalfUpSlack(n, unit);
    NearFraction(HalfUp(n, unit), n, unit, HalfUp(n, unit) * unit - n);
    Quotient(n, unit);
    RoundUnique(n as real / unit as real, HalfUp(n, unit));
  }

  lemma DivideOut(d: real, unit: int, gap: int)
    requires unit >= 1 && gap as real == d * unit as real && 0 < 2 * gap + unit && 2 * gap <= unit
    ensures -0.5 < d <= 0.5
  {
    var u := unit as real;
    assert (2.0 * d + 1.0) * u == (2 * gap + unit) as real;
    assert (2.0 * d - 1.0) * u == (2 * gap - unit) as real;
    FactorSign(2.0 * d + 1.0, u);
    FactorSign(2.0 * d - 1.0, u);
  }

  lemma FactorSign(x: real, u: real)
    requires u > 0.0
    ensures x * u > 0.0 <==> x > 0.0
  {
  }

  lemma Quotient(n: nat, unit: nat)
    requires unit >= 1
    ensures n as real / unit as real >= 0.0
    ensures n as real / unit as real == 0.0 ==> n == 0
  {
    assert n as real / unit as real * unit as real == n as real;
  }

  lemma RoundInteger(n: int)
    ensures RoundAway(n as real) == n
  {
  }

  lemma NegatedFraction(n: int, unit: nat)
    requires unit >= 1
    ensures n as real / unit as real == -((-n) as real / unit as real)
  {
  }

  /** Rounding the integer coefficient is rounding the number it stands for. */
  lemma DecimalRoundsItsValue(d: Decimal)
    ensures RoundDecimal(d) == RoundAway(ValueOf(d))
  {
    if d.exp >= 0 {
      RoundInteger(d.coef * Pow10(d.exp));
    } else if d.coef >= 0 {
      HalfUpNearest(d.coef, Pow10(-d.exp));
    } else {
      HalfUpNearest(-d.coef, Pow10(-d.exp));
      NegatedFraction(d.coef, Pow10(-d.exp));
      RoundMeaning((-d.coef) as real / Pow10(-d.exp) as real);
    }
  }

  /** Rounding a float, rounding a decimal of the same value, and strict rounding agree; without a
      clamp the result is the rounded number itself. */
  lemma RoundingsAgree(d: Decimal)
    ensures var v := ValueOf(d);
            && FromDecimal(d) == Round(Fin(v))
            && (Round(Fin(v)).clamp.None? <==> MIN_QUOTA < RoundAway(v) < MAX_QUOTA)
            && (Round(Fin(v)).clamp.None? ==> Round(Fin(v)).quota == RoundAway(v) && Strict(FromDecimal(d)) == Some(RoundDecimal(d)))
  {
    DecimalRoundsItsValue(d);
    TruncateMeaning(RoundAway(ValueOf(d)) as real);
  }

  /** Rounding commutes with negation exactly when the rounded number does. */
  lemma RoundOddIff(d: real)
    ensures Round(Negate(Fin(d))).quota == -Round(Fin(d)).quota <==> -2147483648 < RoundAway(d) < 2147483648
  {
    var n := RoundAway(d) as real;
    TruncateMeaning(n);
    RoundMeaning(d);
    OddSymmetryIff(Fin(n));
    assert RoundFloat(Negate(Fin(d))) == Negate(Fin(n));
  }
}

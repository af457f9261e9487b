/** The display multiplier of a quota pool in millionths
    (`agentPlanDisplayMultiplierMicros`, controller/agent_plan_quota_pool.go). */
module MultiplierMicros {
  import opened Options

  const MICROS := 1_000_000
  const MAX_INT64 := 0x7FFF_FFFF_FFFF_FFFF

  /** The requested multiplier: the exact decimal of a finite float as a fraction. */
  datatype Multiplier = NotFinite | Ratio(num: int, den: int)

  predicate WellFormed(v: Multiplier) {
    v.Ratio? ==> v.den > 0
  }

  /** m is the multiplier in millionths, rounded half up: -1/2 < m - v * 10^6 <= 1/2. */
  predicate RoundsTo(v: Multiplier, m: int)
    requires v.Ratio?
  {
    -v.den < 2 * (m * v.den - v.num * 1_000_000) <= v.den
  }

  predicate Representable(m: int) {
    0 < m <= MAX_INT64
  }

  lemma Unique(v: Multiplier, m: int, n: int)
    requires v.Ratio? && WellFormed(v) && RoundsTo(v, m) && RoundsTo(v, n)
    ensures m == n
  {
    Gap(m - n, v.den);
    assert m * v.den - n * v.den == (m - n) * v.den;
  }

  lemma Gap(d: int, den: int)
    requires den > 0 && -den < d * den < den
    ensures d == 0
  {
  }

  /** The quotient of positive numbers, rounded half up. */
  lemma QuotientRounds(v: Multiplier, scaled: nat)
    requires v.Ratio? && v.den > 0 && scaled == v.num * MICROS
    ensures RoundsTo(v, scaled / v.den + if 2 * (scaled % v.den) >= v.den then 1 else 0)
  {
    var quotient := scaled / v.den;
    assert scaled == quotient * v.den + scaled % v.den;
    assert (quotient + 1) * v.den == quotient * v.den + v.den;
  }

  /** Succeeds exactly on finite positive values that have a positive 64-bit rounding, with that rounding. */
  function ToMicros(v: Multiplier): (r: Option<int>)
    requires WellFormed(v)
    ensures r.Some? ==> v.Ratio? && v.num > 0 && Representable(r.value) && RoundsTo(v, r.value)
    ensures r.None? ==> v.NotFinite? || v.num <= 0 || forall m :: Representable(m) ==> !RoundsTo(v, m)
  {
    if v.NotFinite? || v.num <= 0 then None
    else
      var scaled := v.num * MICROS;
      var quotient := scaled / v.den + if 2 * (scaled % v.den) >= v.den then 1 else 0;
      QuotientRounds(v, scaled);
      OnlyRounding(v, quotient);
      if quotient <= 0 || quotient > MAX_INT64 then None else Some(quotient)
  }

  lemma OnlyRounding(v: Multiplier, m: int)
    requires v.Ratio? && WellFormed(v) && RoundsTo(v, m)
    ensures forall n :: RoundsTo(v, n) ==> n == m
  {
    forall n | RoundsTo(v, n) ensures n == m { Unique(v, m, n); }
  }

  /** A larger multiplier never gets fewer millionths. */
  lemma Monotone(v: Multiplier, w: Multiplier)
    requires v.Ratio? && w.Ratio? && WellFormed(v) && WellFormed(w)
    requires v.num * w.den <= w.num * v.den
    ensures ToMicros(v).Some? && ToMicros(w).Some? ==> ToMicros(v).value <= ToMicros(w).value
  {
    if ToMicros(v).Some? && ToMicros(w).Some? {
      RoundingsOrdered(v, w, ToMicros(v).value, ToMicros(w).value);
    }
  }

  lemma RoundingsOrdered(v: Multiplier, w: Multiplier, m: int, n: int)
    requires v.Ratio? && w.Ratio? && WellFormed(v) && WellFormed(w)
    requires v.num * w.den <= w.num * v.den
    requires RoundsTo(v, m) && RoundsTo(w, n)
    ensures m <= n
  {
    // Both brought to the common denominator.
    var d := v.den * w.den;
    var a, b := v.num * w.den * MICROS, w.num * v.den * MICROS;
    Common(m, v.num, v.den, w.den);
    Common(n, w.num, w.den, v.den);
    Ordered(m, n, d, a, b);
  }

  lemma Ordered(m: int, n: int, d: int, a: int, b: int)
    requires d > 0 && a <= b
    requires -d < 2 * (m * d - a) <= d && -d < 2 * (n * d - b) <= d
    ensures m <= n
  {
    assert (n + 1) * d == n * d + d;
    if m > n { Steps(m, n + 1, d); }
  }

  lemma Steps(x: int, y: int, d: int)
    requires x >= y && d > 0
    ensures x * d >= y * d
  {
    assert (x - y) * d >= 0;
  }

  lemma Common(m: int, num: int, den: int, k: int)
    requires k > 0 && den > 0 && -den < 2 * (m * den - num * MICROS) <= den
    ensures -(den * k) < 2 * (m * (den * k) - num * k * MICROS) <= den * k
  {
    var x := 2 * (m * den - num * MICROS);
    Steps(den, x, k);
    Steps(x, 1 - den, k);
    assert x * k == 2 * (m * (den * k) - num * k * MICROS);
    assert (1 - den) * k == k - den * k;
  }

  /** The multiplier shown for m millionths converts back to m. */
  lemma DisplayRoundTrip(m: int)
    requires Representable(m)
    ensures ToMicros(Ratio(m, 1_000_000)) == Some(m)
  {
    assert RoundsTo(Ratio(m, MICROS), m);
    OnlyRounding(Ratio(m, MICROS), m);
  }
}

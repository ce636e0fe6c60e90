/** The price update as the script computes it, in IEEE 754 binary64
    arithmetic rather than exact rationals: `math.ceil(p * m * 100)` where
    each product is rounded to the nearest double (ties to even). Only
    positive normal doubles are modelled, which covers every price and
    multiplier of interest. */
module FloatPricing {
  import Pricing

  /** 2^52 and 2^53: a normal double's significand lies in [2^52, 2^53). */
  const P52: nat := 4503599627370496
  const P53: nat := 9007199254740992

  /** The positive double `m * 2^e`. */
  datatype Double = Double(m: nat, e: int)

  predicate Normal(d: Double)
  {
    P52 <= d.m < P53
  }

  function Pow2(k: nat): (r: nat)
    ensures r >= 1
  {
    if k == 0 then 1 else 2 * Pow2(k - 1)
  }

  /** The double's exact value as a rational. */
  function Value(d: Double): real
  {
    if d.e >= 0 then (d.m * Pow2(d.e)) as real else d.m as real / Pow2(-d.e) as real
  }

  /** `d` is the double nearest to `num / den`, that is, the value Python
      gives the literal: `|m / 2^k - num / den| <= 2^-k / 2`. */
  predicate NearestTo(d: Double, num: nat, den: nat)
  {
    && Normal(d) && d.e < 0 && den > 0
    && var k := -d.e;
       2 * (if d.m * den >= num * Pow2(k) then d.m * den - num * Pow2(k) else num * Pow2(k) - d.m * den) <= den
  }

  function Dist(x: int, y: int): nat
  {
    if x >= y then x - y else y - x
  }

  /** `p / d` rounded to the nearest integer, ties to the even one. */
  function RoundDiv(p: nat, d: nat): (q: nat)
    requires d >= 2 && d % 2 == 0
    ensures p / d <= q <= p / d + 1
    ensures 2 * (p % d) < d ==> q == p / d
    ensures 2 * (p % d) > d ==> q == p / d + 1
    ensures 2 * Dist(q * d, p) <= d
    ensures 2 * (p % d) == d ==> q % 2 == 0
  {
    var q, rem := p / d, p % d;
    assert p == q * d + rem;
    if 2 * rem > d || (2 * rem == d && q % 2 == 1) then
      assert (q + 1) * d == p + (d - rem);
      q + 1
    else
      q
  }

  lemma MulCancel(a: int, b: int, d: int)
    requires d > 0 && a * d < b * d
    ensures a < b
  {
  }

  lemma MulMono(a: nat, b: nat, c: nat, e: nat)
    requires a <= b && c <= e
    ensures a * c <= b * e
  {
    assert a * c <= b * c;
  }

  lemma DivBounds(p: nat, d: nat, lo: nat, hi: nat)
    requires d > 0 && lo * d <= p < hi * d
    ensures lo <= p / d < hi
  {
    var q := p / d;
    assert q * d <= p < (q + 1) * d;
    MulCancel(lo, q + 1, d);
    MulCancel(q, hi, d);
  }

  /** The product of two significands lies in [2^104, 2^106). */
  lemma ProductBounds(x: nat, y: nat)
    requires P52 <= x < P53 && P52 <= y < P53
    ensures P52 * P52 <= x * y < P53 * P53
  {
    MulMono(P52, x, P52, y);
    MulMono(x + 1, P53, y + 1, P53);
  }

  /** Cutting the product back by 52 bits when it is below 2^105, and by 53
      otherwise, leaves a quotient in [2^52, 2^53). */
  lemma ShiftBounds(p: nat, d: nat)
    requires P52 * P52 <= p < P53 * P53
    requires d == if p < P52 * P53 then P52 else P53
    ensures P52 <= p / d < P53
  {
    assert P52 * d <= p < P53 * d;
    DivBounds(p, d, P52, P53);
  }

  /** Floating-point multiplication of two normal doubles: the exact product
      of the significands (between 2^104 and 2^106) is cut back to 53 bits
      with one rounding; a carry out of the top bit renormalises. */
  function Mul(a: Double, b: Double): (r: Double)
    requires Normal(a) && Normal(b)
    ensures Normal(r)
    ensures 52 <= r.e - a.e - b.e <= 54
    ensures 2 * Dist(r.m * Pow2(r.e - a.e - b.e), a.m * b.m) <= Pow2(r.e - a.e - b.e)
  {
    var p := a.m * b.m;
    ProductBounds(a.m, b.m);
    var s: nat := if p < P52 * P53 then 52 else 53;
    var d := if s == 52 then P52 else P53;
    ShiftBounds(p, d);
    var q := RoundDiv(p, d);
    Pow2Value();
    assert Pow2(53) == P53 && Pow2(54) == 2 * P53;
    if q == P53 then Double(P52, a.e + b.e + s + 1) else Double(q, a.e + b.e + s)
  }

  /** `math.ceil` of a double: the least integer not below its value. */
  function Ceil(d: Double): (c: int)
    ensures c as real >= Value(d) && (c - 1) as real < Value(d)
  {
    if d.e >= 0 then d.m * Pow2(d.e)
    else
      var k := Pow2(-d.e);
      var c := (d.m + k - 1) / k;
      assert c * k >= d.m && (c - 1) * k < d.m by {
        assert d.m + k - 1 == c * k + (d.m + k - 1) % k;
      }
      CeilBounds(d.m, k, c);
      c
  }

  lemma CeilBounds(m: nat, k: nat, c: int)
    requires k >= 1 && c * k >= m && (c - 1) * k < m
    ensures c as real >= m as real / k as real && (c - 1) as real < m as real / k as real
  {
    assert c as real * k as real >= m as real;
    assert (c - 1) as real * k as real < m as real;
  }

  /** The double 100.0. */
  const Hundred := Double(7036874417766400, -46)
  /** The double 1.0, which is `1 + 0 / 100` exactly. */
  const One := Double(P52, -52)

  /** As written: the number of cents `math.ceil(price * multiplier * 100)`
      that the script stores, divided by 100, as the new price. */
  function ScriptCents(price: Double, multiplier: Double): (c: int)
    requires Normal(price) && Normal(multiplier)
    ensures c as real >= Value(Mul(Mul(price, multiplier), Hundred))
    ensures (c - 1) as real < Value(Mul(Mul(price, multiplier), Hundred))
  {
    Ceil(Mul(Mul(price, multiplier), Hundred))
  }

  lemma HundredAndOneExact()
    ensures Value(Hundred) == 100.0 && Value(One) == 1.0
  {
    assert Pow2(46) == 70368744177664 by { Pow2Value(); }
    assert Pow2(52) == P52 by { Pow2Value(); }
  }

  lemma Pow2Value()
    ensures Pow2(10) == 1024
    ensures Pow2(42) == 4398046511104
    ensures Pow2(46) == 70368744177664
    ensures Pow2(52) == P52
  {
    assert Pow2(10) == 1024;
    assert Pow2(20) == 1024 * 1024 by { Pow2Add(10, 10); }
    assert Pow2(40) == Pow2(20) * Pow2(20) by { Pow2Add(20, 20); }
    assert Pow2(42) == 4 * Pow2(40);
    assert Pow2(46) == 16 * Pow2(42) by { Pow2Add(42, 4); }
    assert Pow2(52) == Pow2(46) * 64 by { Pow2Add(46, 6); }
  }

  lemma {:induction false} Pow2Add(a: nat, b: nat)
    ensures Pow2(a + b) == Pow2(a) * Pow2(b)
  {
    if b > 0 {
      Pow2Add(a, b - 1);
    }
  }

  /** The double nearest 1.1 and the double nearest 1.06. */
  const OnePointOne := Double(4953959590107546, -52)
  const OnePointZeroSix := Double(4773815605012726, -52)
  /** The double 10.0. */
  const Ten := Double(5629499534213120, -49)

  /** The constants above are what Python reads for `1.1`, `1.06` and `10.0`. */
  lemma ConstantsAreNearest()
    ensures NearestTo(OnePointOne, 11, 10)
    ensures NearestTo(OnePointZeroSix, 106, 100)
    ensures NearestTo(Ten, 10, 1)
  {
    Pow2Value();
    assert Pow2(49) == Pow2(46) * 8 by { Pow2Add(46, 3); }
  }

  /** A price of 1.10 at a 0% change: the script stores 1.11, because
      `1.1 * 1.0 * 100` is 110 + 2^-46 in binary64 and its ceiling is 111.
      The exact computation gives 110 cents. */
  lemma OnCentPriceGainsACent()
    ensures NearestTo(OnePointOne, 11, 10) && Value(One) == 1.0
    ensures ScriptCents(OnePointOne, One) == 111
    ensures Pricing.AdjustPrice(1.1, 1.0) == 1.1
  {
    ConstantsAreNearest();
    HundredAndOneExact();
    Pricing.CeilToCentOnCent(1.1);
    Pow2Value();
    var a := Mul(OnePointOne, One);
    assert a == OnePointOne;
    var b := Mul(a, Hundred);
    assert b == Double(7740561859543041, -46);
  }

  /** A price of 10.00 at +6%: `10.0 * 1.06` rounds to the double just above
      10.6, times 100 is 1060 + 2^-42, and the script stores 10.61 where the
      exact computation gives 10.60. */
  lemma SixPercentGainsACent()
    ensures NearestTo(Ten, 10, 1) && NearestTo(OnePointZeroSix, 106, 100)
    ensures ScriptCents(Ten, OnePointZeroSix) == 1061
    ensures Pricing.AdjustPrice(10.0, 1.06) == 10.6
  {
    ConstantsAreNearest();
    Pricing.PriceExamples();
    Pow2Value();
    var a := Mul(Ten, OnePointZeroSix);
    assert a == Double(5967269506265908, -49);
    var b := Mul(a, Hundred);
    assert b == Double(4661929301770241, -42);
  }
}

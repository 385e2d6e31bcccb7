/** The quantiser: division by a table entry, done with a fixed-point reciprocal. The reciprocal of an
    entry is rounded, and the correction that is added before the product makes up for it, but not for
    every value: the condition under which the product is the rounded quotient is stated here, together
    with the tables that the entries come from. */
module Quantization {
  import opened Bits
  import opened EntropyCoding

  const ONE := 32768   // 1 << SHIFT

  datatype Reciprocal = Reciprocal(factor: nat, correction: nat)

  /** compute_reciprocal. */
  function ComputeReciprocal(divisor: nat): Reciprocal
  {
    if divisor <= 1 then Reciprocal(1, 0)
    else
      var reciprocals, fractional := ONE / divisor, ONE % divisor;
      var correction := divisor / 2;
      if fractional == 0 then Reciprocal(reciprocals, correction)
      else if fractional <= correction then Reciprocal(reciprocals, correction + 1)
      else Reciprocal(reciprocals + 1, correction)
  }

  /** The magnitude of quantize: multiply and shift. */
  function Product(value: nat, r: Reciprocal): nat
  {
    (value + r.correction) * r.factor / ONE
  }

  /** quantize: the sign is put back afterwards and the result cut to 16 bits. */
  function Quantize(value: int16, r: Reciprocal): int16
  {
    var product: int := Product(Magnitude(value), r);
    Wrap16(if value < 0 then -product else product)
  }

  /** The quotient rounded to the nearest integer, halves away from zero. */
  function Rounded(value: int, d: nat): int
    requires d > 0
  {
    if value < 0 then -((-value + d / 2) / d) else (value + d / 2) / d
  }

  /** What a table entry can be: eight times a value from 1 to 2048. */
  predicate IsEntry(d: nat)
  {
    d % 8 == 0 && 8 <= d <= 16384
  }

  // ---------------------------------------------------------------- arithmetic

  /** The reciprocal is exact: 32768 == q * d. */
  lemma ExactReciprocal(q: nat, d: nat, m: nat, s: nat)
    requires d > 0 && q * d == ONE && s < d
    ensures (m * d + s) * q / ONE == m
  {
    MulDistributes(m * d, s, q);
    MulSwap(m, d, q);
    MulLess(s, d, q);
    DivModUnique((m * d + s) * q, ONE, m, s * q);
  }

  lemma MulSwap(m: nat, d: nat, q: nat)
    ensures (m * d) * q == m * (q * d)
  {
  }

  /** Rounded down, with the correction raised by one. */
  lemma LowReciprocal(q: nat, f: nat, d: nat, m: nat, s: nat)
    requires d > 0 && q * d + f == ONE && 0 < f < d && s < d && m * f < ONE
    ensures (m * d + s + 1) * q / ONE == if m * f <= q * (s + 1) then m else m - 1
  {
    var v := (m * d + s + 1) * q;
    LowParts(q, f, d, m, s);
    if m * f <= q * (s + 1) {
      DivModUnique(v, ONE, m, q * (s + 1) - m * f);
    } else {
      assert m > 0;
      DivModUnique(v, ONE, m - 1, ONE + q * (s + 1) - m * f);
    }
  }

  lemma LowParts(q: nat, f: nat, d: nat, m: nat, s: nat)
    requires q * d + f == ONE && s < d
    ensures (m * d + s + 1) * q == m * ONE - m * f + q * (s + 1)
    ensures q * (s + 1) <= q * d
  {
    MulDistributes(m * d, s + 1, q);
    MulSwap(m, d, q);
    MulDistributes(q * d, f, m);
    MulBelow(q, q, s + 1, d);
  }

  /** Rounded up. */
  lemma HighReciprocal(q: nat, g: nat, d: nat, m: nat, s: nat)
    requires d > 0 && (q + 1) * d == ONE + g && 0 < g && s < d && m * g + s * (q + 1) < 2 * ONE
    ensures (m * d + s) * (q + 1) / ONE == if m * g + s * (q + 1) < ONE then m else m + 1
  {
    var v := (m * d + s) * (q + 1);
    MulDistributes(m * d, s, q + 1);
    MulSwap(m, d, q + 1);
    assert v == m * (ONE + g) + s * (q + 1);
    assert m * (ONE + g) == m * ONE + m * g;
    if m * g + s * (q + 1) < ONE {
      DivModUnique(v, ONE, m, m * g + s * (q + 1));
    } else {
      DivModUnique(v, ONE, m + 1, m * g + s * (q + 1) - ONE);
    }
  }

  // ---------------------------------------------------------------- when it rounds exactly

  /** x plus half of d is m * d + s. The product rounds x / d exactly when the error of the reciprocal,
      m times over, stays inside the distance of s to the next multiple. */
  predicate RoundsExactly(x: nat, d: nat)
    requires d > 0
  {
    var q, f := ONE / d, ONE % d;
    var m, s := (x + d / 2) / d, (x + d / 2) % d;
    if f == 0 then true
    else if f <= d / 2 then m * f <= q * (s + 1)
    else m * (d - f) + s * (q + 1) < ONE
  }

  lemma Halves(d: nat)
    requires IsEntry(d)
    ensures d % 2 == 0 && d == 2 * (d / 2)
  {
    var k := d / 8;
    assert d == 8 * k;
    DivModUnique(d, 2, 4 * k, 0);
  }

  lemma EntryParts(x: nat, d: nat) returns (q: nat, f: nat, m: nat, s: nat)
    requires IsEntry(d)
    ensures q == ONE / d && f == ONE % d && m == (x + d / 2) / d && s == (x + d / 2) % d
    ensures q * d + f == ONE && f < d && m * d + s == x + d / 2 && s < d && 2 <= q <= 4096 && d % 2 == 0
  {
    Halves(d);
    q, f := Quotient(ONE, d);
    m, s := Quotient(x + d / 2, d);
    if q > 4096 {
      MulBelow(4097, q, 8, d);
    }
    if q < 2 {
      MulBelow(q, 1, d, 16384);
    }
  }

  lemma HalfBound(m: nat, d: nat, f: nat, x: nat)
    requires m * d <= x && 2 * f <= d
    ensures 2 * (m * f) <= x
  {
    MulBelow(m, m, 2 * f, d);
    assert m * (2 * f) == 2 * (m * f);
  }

  /** The product, from the parts of the reciprocal and of the value. */
  function ProductOf(q: nat, f: nat, d: nat, m: nat, s: nat): int
  {
    if f == 0 then m
    else if f <= d / 2 then if m * f <= q * (s + 1) then m else m - 1
    else if m * (d - f) + s * (q + 1) < ONE then m else m + 1
  }

  lemma ProductIs(x: nat, d: nat, q: nat, f: nat, m: nat, s: nat)
    requires IsEntry(d) && x <= 0x8000 && q == ONE / d && f == ONE % d
    requires q * d + f == ONE && f < d && m * d + s == x + d / 2 && s < d && q >= 2
    ensures Product(x, ComputeReciprocal(d)) == ProductOf(q, f, d, m, s)
  {
    if f == 0 {
      ExactReciprocal(q, d, m, s);
    } else if f <= d / 2 {
      HalfBound(m, d, f, x + d / 2);
      LowReciprocal(q, f, d, m, s);
    } else {
      var g := d - f;
      HalfBound(m, d, g, x + d / 2);
      MulDistributes(q, 1, d);
      HighPart(q, g, d, s);
      HighReciprocal(q, g, d, m, s);
    }
  }

  /** The product is the rounded quotient exactly under that condition, and else off by one. */
  lemma ProductRounds(x: nat, d: nat)
    requires IsEntry(d) && x <= 0x8000
    ensures var p, m := Product(x, ComputeReciprocal(d)), (x + d / 2) / d;
            if RoundsExactly(x, d) then p == m
            else if ONE % d <= d / 2 then p == m - 1 else p == m + 1
  {
    var q, f, m, s := EntryParts(x, d);
    ProductIs(x, d, q, f, m, s);
  }

  lemma HighPart(q: nat, g: nat, d: nat, s: nat)
    requires (q + 1) * d == ONE + g && s < d && q >= 2
    ensures s * (q + 1) <= ONE + g - 3
  {
    MulDiff(s, d, q + 1);
  }

  /** quantize is rounded division exactly when the condition holds for the magnitude, never off by
      more than one, and no 32-bit or 16-bit value overflows on the way. */
  lemma QuantizeRounds(value: int16, d: nat)
    requires IsEntry(d)
    ensures Quantize(value, ComputeReciprocal(d)) == Rounded(value, d) <==> RoundsExactly(Magnitude(value), d)
    ensures -1 <= Quantize(value, ComputeReciprocal(d)) - Rounded(value, d) <= 1
    ensures (Magnitude(value) + ComputeReciprocal(d).correction) * ComputeReciprocal(d).factor < 0x8000_0000
    ensures Product(Magnitude(value), ComputeReciprocal(d)) < 0x8000
  {
    var x, r := Magnitude(value), ComputeReciprocal(d);
    ProductRounds(x, d);
    var q, f, m, s := EntryParts(x, d);
    MulBelow(x + r.correction, 0x8000 + 8193, r.factor, 4096 + 1);
  }

  /** It is not always rounded division: 4092 / 24 is 170.5, and the product loses the half. */
  lemma RoundingFails()
    ensures IsEntry(24) && !RoundsExactly(4092, 24)
    ensures Quantize(4092, ComputeReciprocal(24)) == 170 && Rounded(4092, 24) == 171
  {
    QuantizeRounds(4092, 24);
  }

  lemma TwiceHalf(q: nat, h: nat)
    ensures 2 * (q * (h + 1)) == q * (2 * h) + 2 * q
  {
  }

  /** The rounded quotient of no value exceeds the one of the largest by more than one. */
  lemma QuotientAtMost(q: nat, f: nat, h: nat, m: nat, s: nat, x: nat)
    requires q * (2 * h) + f == ONE && f < 2 * h && m * (2 * h) + s == x + h && x <= ONE
    ensures m <= q + 1 && (m == q + 1 ==> s + h <= f)
  {
    MulDistributes(q, 1, 2 * h);
    MulDistributes(q, 2, 2 * h);
    if m > q + 1 {
      MulBelow(q + 2, m, 2 * h, 2 * h);
    }
  }

  lemma LowWithin(q: nat, f: nat, h: nat, m: nat, s: nat, x: nat)
    requires q * (2 * h) + f == ONE && f <= h && m * (2 * h) + s == x + h && x <= ONE && h > 0
    requires m * f > q * (s + 1)
    ensures s < h
  {
    QuotientAtMost(q, f, h, m, s, x);
    if m <= q && s >= h {
      MulBelow(m, q, f, s + 1);
    }
  }

  lemma HighWithin(q: nat, g: nat, h: nat, m: nat, s: nat, x: nat)
    requires q * (2 * h) + (2 * h - g) == ONE && g < h && m * (2 * h) + s == x + h && x <= ONE && g > 0
    requires m * g + s * (q + 1) >= ONE
    ensures s >= h
  {
    QuotientAtMost(q, 2 * h - g, h, m, s, x);
    if s < h {
      if m <= q {
        HighSmall(q, g, h, m, s);
      } else {
        HighLarge(q, g, h, s);
      }
    }
  }

  lemma HighSmall(q: nat, g: nat, h: nat, m: nat, s: nat)
    requires q * (2 * h) + (2 * h - g) == ONE && 0 < g < h && m <= q && s < h
    ensures m * g + s * (q + 1) < ONE
  {
    MulBelow(m, q, g, h - 1);
    MulBelow(s, h - 1, q + 1, q + 1);
    HighTerms(q, h);
  }

  lemma HighTerms(q: nat, h: nat)
    requires h > 0
    ensures q * (h - 1) + (h - 1) * (q + 1) == q * (2 * h) + h - 2 * q - 1
  {
    assert q * (h - 1) == q * h - q;
    assert (h - 1) * (q + 1) == q * h + h - q - 1;
    assert q * (2 * h) == 2 * (q * h);
  }

  lemma HighLarge(q: nat, g: nat, h: nat, s: nat)
    requires q * (2 * h) + (2 * h - g) == ONE && 0 < g < h && s + g <= h
    ensures (q + 1) * g + s * (q + 1) < ONE
  {
    MulDistributes(g, s, q + 1);
    MulBelow(g + s, h, q + 1, q + 1);
    HalfTerms(q, h);
    assert (q + 1) * g == g * (q + 1);
  }

  lemma HalfTerms(q: nat, h: nat)
    ensures 2 * (h * (q + 1)) == q * (2 * h) + 2 * h
  {
    assert h * (q + 1) == q * h + h;
    assert q * (2 * h) == 2 * (q * h);
  }

  predicate Beside(p: int, m: nat, s: nat, h: nat)
  {
    p == m || (p == m - 1 && s < h) || (p == m + 1 && s >= h)
  }

  /** Where the product is off by one, it is the second nearest multiple that it gives. */
  lemma OffSide(x: nat, d: nat, h: nat, q: nat, f: nat, m: nat, s: nat)
    requires d == 2 * h && q * d + f == ONE && f < d && m * d + s == x + h && x <= ONE
    ensures Beside(ProductOf(q, f, d, m, s), m, s, h)
  {
    if 0 < f <= h && m * f > q * (s + 1) {
      LowWithin(q, f, h, m, s, x);
    }
    if f > h && m * (d - f) + s * (q + 1) >= ONE {
      HighWithin(q, d - f, h, m, s, x);
    }
  }

  lemma ProductAndParts(x: nat, d: nat) returns (p: nat, h: nat, q: nat, f: nat, m: nat, s: nat)
    requires IsEntry(d) && x <= ONE
    ensures d == 2 * h && q * d + f == ONE && f < d && m * d + s == x + h && s < d && 2 <= q
    ensures p == Product(x, ComputeReciprocal(d)) == ProductOf(q, f, d, m, s)
  {
    q, f, m, s := EntryParts(x, d);
    ProductIs(x, d, q, f, m, s);
    Halves(d);
    p, h := Product(x, ComputeReciprocal(d)), d / 2;
  }

  lemma BackWithin(p: nat, q: nat, f: nat, m: nat, d: nat, h: nat, s: nat, x: nat)
    requires d == 2 * h && q * d + f == ONE && f < d && m * d + s == x + h && s < d && x <= ONE
    requires p == ProductOf(q, f, d, m, s)
    ensures p * d <= x + d && x <= p * d + d
  {
    OffSide(x, d, h, q, f, m, s);
    MulDistributes(m, 1, d);
    if p < m {
      MulDistributes(p, 1, d);
    }
  }

  /** A decoder multiplies the magnitude out to within one step of the value. */
  lemma ProductWithin(x: nat, d: nat)
    requires IsEntry(d) && x <= ONE
    ensures var back := Product(x, ComputeReciprocal(d)) * d; back <= x + d && x <= back + d
  {
    var p, h, q, f, m, s := ProductAndParts(x, d);
    BackWithin(p, q, f, m, d, h, s, x);
  }

  /** What a decoder multiplies out lies within one step of the coefficient, so the quantiser loses less
      than a step although it does not always round. */
  lemma DequantizedWithin(value: int16, d: nat)
    requires IsEntry(d)
    ensures var back: int := Quantize(value, ComputeReciprocal(d)) * d; back <= value + d && value <= back + d
  {
    var x := Magnitude(value);
    ProductWithin(x, d);
    QuantizeRounds(value, d);
    SignedStep(Product(x, ComputeReciprocal(d)), d);
  }

  lemma SignedStep(p: int, d: int)
    ensures (-p) * d == -(p * d)
  {
  }

  lemma SignSymmetric(value: int16, negated: int16, r: Reciprocal)
    requires value + negated == 0 && Product(Magnitude(value), r) < 0x8000 && Product(0, r) == 0
    ensures var result: int := Quantize(value, r); Quantize(negated, r) == -result
  {
    assert Magnitude(negated) == Magnitude(value);
  }

  lemma ZeroStaysZero(d: nat)
    requires IsEntry(d)
    ensures Product(0, ComputeReciprocal(d)) == 0
  {
    MultipleExact(0, d);
    ProductRounds(0, d);
  }

  /** Negating the input negates the result. */
  lemma QuantizeOdd(value: int16, negated: int16, d: nat)
    requires IsEntry(d) && value + negated == 0
    ensures var result: int := Quantize(value, ComputeReciprocal(d)); Quantize(negated, ComputeReciprocal(d)) == -result
  {
    ZeroStaysZero(d);
    QuantizeRounds(value, d);
    SignSymmetric(value, negated, ComputeReciprocal(d));
  }

  lemma MultipleOf(x: nat, n: nat, d: nat)
    requires IsEntry(d) && x == n * d <= ONE
    ensures RoundsExactly(x, d) && (x + d / 2) / d == n
  {
    var q, f, m, s := EntryParts(x, d);
    HalfQuotient(n, d, m, s);
    FactorBound(n, q, d, f);
    MultipleParts(n, q, d, f);
    RoundsIf(x, d, q, f, m, s);
  }

  lemma RoundsIf(x: nat, d: nat, q: nat, f: nat, m: nat, s: nat)
    requires d > 0 && q == ONE / d && f == ONE % d && m == (x + d / 2) / d && s == (x + d / 2) % d
    requires if f <= d / 2 then m * f <= q * (s + 1) else m * (d - f) + s * (q + 1) < ONE
    ensures RoundsExactly(x, d)
  {
  }

  /** Every multiple of the divisor in range satisfies the condition. */
  lemma MultipleExact(n: nat, d: nat)
    requires IsEntry(d) && n * d <= ONE
    ensures RoundsExactly(n * d, d) && (n * d + d / 2) / d == n
  {
    MultipleOf(n * d, n, d);
  }

  lemma MultipleParts(n: nat, q: nat, d: nat, f: nat)
    requires q * d + f == ONE && f < d && d % 2 == 0 && n <= q && q >= 1
    ensures f <= d / 2 ==> n * f <= q * (d / 2 + 1)
    ensures f > d / 2 ==> n * (d - f) + (d / 2) * (q + 1) < ONE
  {
    if f <= d / 2 {
      MulBelow(n, q, f, d / 2 + 1);
    } else {
      HighMultiple(n, q, d, f);
    }
  }

  lemma HalfQuotient(n: nat, d: nat, m: nat, s: nat)
    requires d > 0 && m * d + s == n * d + d / 2 && s < d
    ensures m == n && s == d / 2
  {
    QuotientUnique(d, n, d / 2, m, s);
  }

  lemma FactorBound(n: nat, q: nat, d: nat, f: nat)
    requires q * d + f == ONE && f < d && n * d <= ONE
    ensures n <= q
  {
    if n > q {
      MulDiff(q, n, d);
    }
  }

  lemma HighMultiple(n: nat, q: nat, d: nat, f: nat)
    requires q * d + f == ONE && d / 2 < f < d && d % 2 == 0 && n <= q && q >= 1
    ensures n * (d - f) + (d / 2) * (q + 1) < ONE
  {
    var h := d / 2;
    MulBelow(n, q, d - f, h - 1);
    assert q * (h - 1) + h * (q + 1) == q * d + h - q by {
      assert q * (h - 1) == q * h - q;
      assert h * (q + 1) == q * h + h;
      assert q * d == q * h + q * h;
    }
  }

  /** A multiple of the divisor quantises to its factor: quantising what a decoder multiplies out
      changes nothing. */
  lemma QuantizeMultiple(k: int, d: nat)
    requires IsEntry(d) && -0x8000 <= k * d < 0x8000
    ensures Quantize(k * d, ComputeReciprocal(d)) == k
  {
    SignedProduct(k, d);
    MultipleExact(Magnitude(k), d);
    SignedMultiple(k, d);
    QuantizeRounds(k * d, d);
  }

  lemma SignedProduct(k: int, d: nat)
    ensures Magnitude(k * d) == Magnitude(k) * d
  {
  }

  lemma SignedMultiple(k: int, d: nat)
    requires d > 0 && (Magnitude(k) * d + d / 2) / d == Magnitude(k)
    ensures Magnitude(k * d) == Magnitude(k) * d && Rounded(k * d, d) == k
  {
  }

  // ---------------------------------------------------------------- the tables

  /** The percentage that a quality scales the base table by. */
  function Scale(quality: nat): nat
  {
    var q := if quality < 1 then 1 else if quality > 100 then 100 else quality;
    if q < 50 then 5000 / q else 200 - q * 2
  }

  function QualityEntry(v: nat, quality: nat): nat
  {
    8 * Clamp(ScaledEntry(v, Scale(quality)), 1, 255)
  }

  /** The value v scaled for a quality of q: by 50 / q up to quality 50, to within one half and a hundredth of
      v, and exactly where q divides 50; by (100 - q) / 50 from there on, rounded to the nearest. */
  ghost predicate NearScaled(v: nat, q: nat, e: nat)
    requires 1 <= q <= 100
  {
    && (q <= 50 ==> 5000 * v - q * (v + 50) < 100 * (q * e) <= 5000 * v + 50 * q)
    && (50 % q == 0 ==> e == v * (50 / q))
    && (q >= 50 ==> 100 * e <= 2 * (v * (100 - q)) + 50 < 100 * e + 100)
  }

  /** A base value's entry at a quality: eight times the scaled value, kept within 1 and 255. */
  ghost predicate IsQualityEntry(v: nat, quality: nat, entry: nat)
  {
    exists e: nat :: NearScaled(v, Clamp(quality, 1, 100), e) && entry == 8 * Clamp(e, 1, 255)
  }

  lemma LowQuality(v: nat, q: nat, s: nat, e: nat)
    requires s * q <= 5000 < s * q + q && 100 * e <= v * s + 50 < 100 * e + 100
    ensures 5000 * v - q * (v + 50) < 100 * (q * e) <= 5000 * v + 50 * q
  {
    MulAssoc(v, s, q);
    MulBelow(v, v, s * q, 5000);
    MulBelow(v, v, 5000, s * q + q - 1);
    MulBelow(100 * e, v * s + 50, q, q);
    MulBelow(v * s, 100 * e + 49, q, q);
    LowQualityParts(v, q, s, e, v * (s * q), v * q, q * e);
  }

  lemma LowQualityParts(v: nat, q: nat, s: nat, e: nat, p: nat, t: nat, u: nat)
    requires q > 0 && p == v * (s * q) == (v * s) * q && t == v * q && u == q * e
    requires p <= v * 5000 <= v * (s * q + q - 1)
    requires (100 * e) * q <= (v * s + 50) * q && (v * s) * q <= (100 * e + 49) * q
    ensures 5000 * v - q * (v + 50) < 100 * (q * e) <= 5000 * v + 50 * q
  {
    assert v * (s * q + q - 1) == p + t - v;
    assert (100 * e) * q == 100 * u && (v * s + 50) * q == p + 50 * q && (100 * e + 49) * q == 100 * u + 49 * q;
    assert q * (v + 50) == t + 50 * q;
  }

  lemma DivisorQuality(v: nat, q: nat, k: nat, s: nat, e: nat)
    requires q > 0 && k * q == 50 && s * q <= 5000 < s * q + q && 100 * e <= v * s + 50 < 100 * e + 100
    ensures e == v * k
  {
    MulAssoc(100, k, q);
    QuotientUnique(q, 100 * k, 0, s, 5000 - s * q);
    assert v * s == 100 * (v * k);
  }

  lemma HighQuality(v: nat, q: nat, e: nat)
    requires 50 <= q <= 100 && e == ScaledEntry(v, 200 - q * 2)
    ensures 100 * e <= 2 * (v * (100 - q)) + 50 < 100 * e + 100
    ensures q == 50 ==> e == v
  {
    assert v * (200 - q * 2) == 2 * (v * (100 - q));
  }

  lemma ScaleBelow50(q: nat, v: nat) returns (s: nat, e: nat)
    requires 1 <= q < 50
    ensures s == Scale(q) && s * q <= 5000 < s * q + q
    ensures e == ScaledEntry(v, s) && 100 * e <= v * s + 50 < 100 * e + 100
  {
    var t, r := Quotient(5000, q);
    s, e := t, ScaledEntry(v, t);
  }

  lemma FactorOf50(q: nat) returns (k: nat)
    requires 1 <= q && 50 % q == 0
    ensures k == 50 / q && k * q == 50
  {
    var d, r := Quotient(50, q);
    k := d;
  }

  lemma QualityNear(v: nat, q: nat, e: nat)
    requires 1 <= q <= 100 && e == ScaledEntry(v, Scale(q))
    ensures NearScaled(v, q, e)
  {
    if q < 50 {
      var s, e' := ScaleBelow50(q, v);
      LowQuality(v, q, s, e');
      if 50 % q == 0 {
        var k := FactorOf50(q);
        DivisorQuality(v, q, k, s, e');
      }
    } else {
      HighQuality(v, q, e);
      if q > 50 {
        NotADivisor(q);
      }
    }
  }

  lemma NotADivisor(q: nat)
    requires q > 50
    ensures 50 % q != 0
  {
  }

  lemma QualityScales(v: nat, quality: nat)
    ensures IsQualityEntry(v, quality, QualityEntry(v, quality))
  {
    var q := Clamp(quality, 1, 100);
    assert Scale(quality) == Scale(q);
    QualityNear(v, q, ScaledEntry(v, Scale(q)));
  }

  lemma ScaleFalls(low: nat, high: nat)
    requires low <= high
    ensures Scale(low) >= Scale(high)
  {
    if 1 <= low <= high < 50 {
      QuotientFalls(5000, low, high);
    } else if low < 50 {
      assert low < 1 || 5000 / low >= 100 by {
        if low >= 1 {
          QuotientFalls(5000, low, 50);
        }
      }
    }
  }

  lemma QuotientFalls(a: nat, low: nat, high: nat)
    requires 0 < low <= high
    ensures a / low >= a / high
  {
    var q, r := Quotient(a, low);
    var q', r' := Quotient(a, high);
    if q < q' {
      MulDiff(q, q', low);
      MulBelow(q', q', low, high);
    }
  }

  /** A table entry never grows with the quality, nor shrinks with the base value; quality 50 keeps the
      base table, quality 25 doubles it, and quality 100 and more divides by nothing but the scale of the
      transform. */
  lemma QualityTables(v: nat, w: nat, low: nat, high: nat)
    requires v <= w && low <= high
    ensures QualityEntry(v, high) <= QualityEntry(w, low)
    ensures QualityEntry(v, 50) == 8 * Clamp(v, 1, 255) && QualityEntry(v, 25) == 8 * Clamp(2 * v, 1, 255)
    ensures high >= 100 ==> QualityEntry(v, high) == 8
  {
    ScaleFalls(low, high);
    ScaledMono(v, w, Scale(high), Scale(low));
    TwiceAt25(v);
  }

  lemma TwiceAt25(v: nat)
    ensures QualityEntry(v, 25) == 8 * Clamp(2 * v, 1, 255)
  {
    TwiceScaled(v, Scale(25));
  }

  lemma TwiceScaled(v: nat, scale: nat)
    requires scale == 200
    ensures ScaledEntry(v, scale) == 2 * v
  {
  }

  function ScaledEntry(v: nat, scale: nat): nat
  {
    (v * scale + 50) / 100
  }

  lemma ScaledMono(a: nat, b: nat, scale: nat, larger: nat)
    requires a <= b && scale <= larger
    ensures ScaledEntry(a, scale) <= ScaledEntry(b, larger)
  {
    MulBelow(a, b, scale, larger);
  }

  function Clamp(v: nat, low: nat, high: nat): nat
  {
    if v < low then low else if v > high then high else v
  }

  /** get_with_quality: the base table scaled by the quality, eight times. */
  method GetWithQuality(table: seq<nat>, quality: nat) returns (qTable: seq<nat>)
    requires |table| == 64 && quality <= 255 && forall i :: 0 <= i < 64 ==> table[i] < 0x1_0000
    ensures |qTable| == 64 && forall i :: 0 <= i < 64 ==> IsEntry(qTable[i]) && qTable[i] / 8 <= 255
    ensures forall i :: 0 <= i < 64 ==> qTable[i] == QualityEntry(table[i], quality)
    ensures forall i :: 0 <= i < 64 ==> IsQualityEntry(table[i], quality, qTable[i])
  {
    var q := if quality < 1 then 1 else if quality > 100 then 100 else quality;
    var scale := if q < 50 then 5000 / q else 200 - q * 2;
    var result := new nat[64](_ => 8);
    for i := 0 to 64
      invariant forall k :: 0 <= k < i ==> result[k] == 8 * Clamp(ScaledEntry(table[k], scale), 1, 255)
    {
      result[i] := 8 * Clamp(ScaledEntry(table[i], scale), 1, 255);
    }
    qTable := result[..];
    forall i | 0 <= i < 64 ensures IsQualityEntry(table[i], quality, qTable[i]) {
      QualityScales(table[i], quality);
    }
  }

  /** get_user_table. */
  method GetUserTable(table: seq<nat>) returns (qTable: seq<nat>)
    requires |table| == 64
    ensures |qTable| == 64 && forall i :: 0 <= i < 64 ==> IsEntry(qTable[i])
    ensures forall i :: 0 <= i < 64 ==> qTable[i] == 8 * Clamp(table[i], 1, 2048)
  {
    var result := new nat[64](_ => 8);
    for i := 0 to 64
      invariant forall k :: 0 <= k < i ==> result[k] == 8 * Clamp(table[k], 1, 2048)
    {
      result[i] := 8 * Clamp(table[i], 1, 2048);
    }
    qTable := result[..];
  }

  /** The byte that the quantisation segment tells a decoder. */
  function SegmentValue(entry: nat): byte
  {
    entry / 8 % 256
  }

  /** A decoder that multiplies by the byte it was told undoes the quantiser for every entry a quality
      gives, but not for every entry a user table gives: beyond 255 the byte is cut. */
  lemma SegmentValueFits(entry: nat)
    requires IsEntry(entry)
    ensures 8 * SegmentValue(entry) == entry <==> entry / 8 <= 255
  {
  }

  lemma SegmentValueCut()
    ensures IsEntry(8 * 256) && SegmentValue(8 * 256) == 0
  {
  }
}

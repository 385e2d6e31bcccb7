/** The forward DCT: a row pass into 32-bit words and a column pass back in place, both in scaled
    fixed-point arithmetic. The products of a pass and their sums are typed as 32-bit words, the sums of its
    inputs are bounded far inside one, and so are its outputs; the quantiser and the tables rely on that. */
module ForwardDct {
  import opened Bits
  import opened EntropyCoding

  type int32 = n: int | -0x8000_0000 <= n < 0x8000_0000

  /** A sum or difference of two inputs of a pass. */
  predicate Tmp(n: int)
  {
    -8192 <= n <= 8192
  }

  type Part = (int32, int32, int32, int32)

  predicate PartWithin(r: Part, bound: int)
  {
    -bound <= r.0 <= bound && -bound <= r.1 <= bound && -bound <= r.2 <= bound && -bound <= r.3 <= bound
  }

  /** Outputs 0, 4, 2 and 6 of a pass. */
  function Even(tmp0: int, tmp1: int, tmp2: int, tmp3: int): (r: Part)
    requires Tmp(tmp0) && Tmp(tmp1) && Tmp(tmp2) && Tmp(tmp3)
    ensures r.0 == tmp0 + tmp1 + tmp2 + tmp3
    ensures r.1 == tmp0 - tmp1 - tmp2 + tmp3
    ensures r.2 == 10703 * (tmp0 - tmp3) + 4433 * (tmp1 - tmp2)
    ensures r.3 == 4433 * (tmp0 - tmp3) - 10704 * (tmp1 - tmp2)
    ensures PartWithin(r, 0x2000_0000)
  {
    var tmp10: int := tmp0 + tmp3;
    var tmp13: int := tmp0 - tmp3;
    var tmp11: int := tmp1 + tmp2;
    var tmp12: int := tmp1 - tmp2;
    var z1: int32 := (tmp12 + tmp13) * 4433;
    var p6: int32 := tmp13 * 6270;
    var p2: int32 := tmp12 * -15137;
    (tmp10 + tmp11, tmp10 - tmp11, (z1 as int) + p6, (z1 as int) + p2)
  }

  /** The shared rotations of the odd part. */
  function Rotations(tmp4: int, tmp5: int, tmp6: int, tmp7: int): (r: Part)
    requires Tmp(tmp4) && Tmp(tmp5) && Tmp(tmp6) && Tmp(tmp7)
    ensures r.0 == -7373 * tmp4 - 7373 * tmp7
    ensures r.1 == -20995 * tmp5 - 20995 * tmp6
    ensures r.2 == -6436 * tmp4 + 9633 * tmp5 - 6436 * tmp6 + 9633 * tmp7
    ensures r.3 == 9633 * tmp4 + 6437 * tmp5 + 9633 * tmp6 + 6437 * tmp7
  {
    var z3: int := tmp4 + tmp6;
    var z4: int := tmp5 + tmp7;
    var z5: int32 := (z3 + z4) * 9633;
    var p3: int32 := z3 * -16069;
    var p4: int32 := z4 * -3196;
    ((tmp4 + tmp7) * -7373, (tmp5 + tmp6) * -20995, (p3 as int) + z5, (p4 as int) + z5)
  }

  /** Outputs 7, 5, 3 and 1 of a pass. */
  function Odd(tmp4: int, tmp5: int, tmp6: int, tmp7: int): (r: Part)
    requires Tmp(tmp4) && Tmp(tmp5) && Tmp(tmp6) && Tmp(tmp7)
    ensures r.0 == -11363 * tmp4 + 9633 * tmp5 - 6436 * tmp6 + 2260 * tmp7
    ensures r.1 == 9633 * tmp4 + 2261 * tmp5 - 11362 * tmp6 + 6437 * tmp7
    ensures r.2 == -6436 * tmp4 - 11362 * tmp5 - 2259 * tmp6 + 9633 * tmp7
    ensures r.3 == 2260 * tmp4 + 6437 * tmp5 + 9633 * tmp6 + 11363 * tmp7
    ensures PartWithin(r, 0x2000_0000)
  {
    var z := Rotations(tmp4, tmp5, tmp6, tmp7);
    var p4: int := tmp4 * 2446;
    var p5: int := tmp5 * 16819;
    var p6: int := tmp6 * 25172;
    var p7: int := tmp7 * 12299;
    (Sum32(p4, z.0, z.2), Sum32(p5, z.1, z.3), Sum32(p6, z.1, z.2), Sum32(p7, z.0, z.3))
  }

  /** A sum of three words, each partial sum a word. */
  function Sum32(a: int, b: int, c: int): int32
    requires -0x8000_0000 <= a < 0x8000_0000
    requires -0x8000_0000 <= a + b < 0x8000_0000 && -0x8000_0000 <= a + b + c < 0x8000_0000
  {
    a + b + c
  }

  /** Eight values, each within the bounds. */
  predicate Within(d: seq<int>, low: int, high: int)
  {
    |d| == 8 && forall j :: 0 <= j < 8 ==> low <= d[j] <= high
  }

  /** The even part of one pass. */
  function EvenOf(d: seq<int>): (r: Part)
    requires Within(d, -4096, 4096)
    ensures r.0 == Sum8(d)
    ensures PartWithin(r, 0x2000_0000)
  {
    Even(d[0] + d[7], d[1] + d[6], d[2] + d[5], d[3] + d[4])
  }

  /** The odd part of one pass. */
  function OddOf(d: seq<int>): (r: Part)
    requires Within(d, -4096, 4096)
    ensures PartWithin(r, 0x2000_0000)
  {
    Odd(d[3] - d[4], d[2] - d[5], d[1] - d[6], d[0] - d[7])
  }

  function Interleave(even: Part, odd: Part): (r: seq<int>)
    ensures |r| == 8
  {
    [even.0, odd.3, even.2, odd.2, even.1, odd.1, even.3, odd.0]
  }

  function Sum8(d: seq<int>): int
    requires |d| == 8
  {
    d[0] + d[1] + d[2] + d[3] + d[4] + d[5] + d[6] + d[7]
  }

  /** One pass over eight values, before scaling down. */
  function Pass(d: seq<int>): (r: seq<int>)
    requires Within(d, -4096, 4096)
    ensures Words(r)
  {
    Interleave(EvenOf(d), OddOf(d))
  }

  /** descale: a rounding right shift. */
  function Descale(x: int, n: nat): (r: int)
    requires 0 < n <= 15 && -0x2000_0000 <= x <= 0x2000_0000
  {
    Pow2Mono(n - 1, 15);
    Pow2Values();
    var sum: int32 := x + Pow2(n - 1);
    sum / Pow2(n)
  }

  lemma DescaleValues(x: int)
    requires -0x2000_0000 <= x <= 0x2000_0000
    ensures Descale(x, 2) == (x + 2) / 4
    ensures Descale(x, 11) == (x + 1024) / 2048
    ensures Descale(x, 15) == (x + 16384) / 32768
  {
    Pow2Values();
    assert Pow2(11) == 8 * Pow2(8);
    assert Pow2(11) == 2 * Pow2(10);
    assert Pow2(15) == 2 * Pow2(14);
  }

  /** Outputs 0 and 4 keep the scale of the input, the others are scaled by 2^13. */
  predicate Unscaled(k: nat)
  {
    k == 0 || k == 4
  }

  /** The outputs of a pass, before scaling down. */
  predicate Words(p: seq<int>)
  {
    |p| == 8 && forall k :: 0 <= k < 8 ==> -0x2000_0000 <= p[k] <= 0x2000_0000
  }

  /** What the row pass makes of an output: four times the scale of the input. */
  function RowScale(p: seq<int>): (r: seq<int>)
    requires Words(p)
    ensures |r| == 8
  {
    seq(8, k requires 0 <= k < 8 => if Unscaled(k) then p[k] * 4 else Descale(p[k], 11))
  }

  /** What the column pass makes of an output. */
  function ColumnScale(p: seq<int>): (r: seq<int>)
    requires Words(p)
    ensures |r| == 8
  {
    seq(8, k requires 0 <= k < 8 => Descale(p[k], if Unscaled(k) then 2 else 15))
  }

  /** No output but the first sees the level of the input, only its spread. */
  predicate Spread(p: seq<int>, spread: nat)
  {
    && Words(p)
    && -4 * spread <= p[4] <= 4 * spread
    && forall k :: 1 <= k < 8 ==> -30274 * spread <= p[k] <= 30274 * spread
  }

  lemma EvenSpread(tmp0: int, tmp1: int, tmp2: int, tmp3: int, low: int, spread: nat)
    requires Tmp(tmp0) && Tmp(tmp1) && Tmp(tmp2) && Tmp(tmp3)
    requires low <= tmp0 <= low + 2 * spread && low <= tmp1 <= low + 2 * spread
    requires low <= tmp2 <= low + 2 * spread && low <= tmp3 <= low + 2 * spread
    ensures var r := Even(tmp0, tmp1, tmp2, tmp3);
            && -4 * spread <= r.1 <= 4 * spread
            && -30274 * spread <= r.2 <= 30274 * spread && -30274 * spread <= r.3 <= 30274 * spread
  {
  }

  lemma OddSpread(tmp4: int, tmp5: int, tmp6: int, tmp7: int, spread: int)
    requires Tmp(tmp4) && Tmp(tmp5) && Tmp(tmp6) && Tmp(tmp7)
    requires -spread <= tmp4 <= spread && -spread <= tmp5 <= spread
    requires -spread <= tmp6 <= spread && -spread <= tmp7 <= spread
    ensures PartWithin(Odd(tmp4, tmp5, tmp6, tmp7), 30274 * spread)
  {
    var r := Odd(tmp4, tmp5, tmp6, tmp7);
    FourTerms(-11363, 9633, -6436, 2260, tmp4, tmp5, tmp6, tmp7, spread);
    FourTerms(9633, 2261, -11362, 6437, tmp4, tmp5, tmp6, tmp7, spread);
    FourTerms(-6436, -11362, -2259, 9633, tmp4, tmp5, tmp6, tmp7, spread);
    FourTerms(2260, 6437, 9633, 11363, tmp4, tmp5, tmp6, tmp7, spread);
  }

  lemma OneTerm(a: int, x: int, spread: int)
    requires -spread <= x <= spread
    ensures -(Magnitude(a) * spread) <= a * x <= Magnitude(a) * spread
  {
    if a >= 0 {
      assert a * (spread - x) >= 0 && a * (spread + x) >= 0;
    } else {
      assert -a * (spread - x) >= 0 && -a * (spread + x) >= 0;
    }
  }

  lemma FourTerms(a: int, b: int, c: int, d: int, x: int, y: int, z: int, w: int, spread: int)
    requires -spread <= x <= spread && -spread <= y <= spread && -spread <= z <= spread && -spread <= w <= spread
    requires Magnitude(a) + Magnitude(b) + Magnitude(c) + Magnitude(d) <= 30274
    ensures -(30274 * spread) <= a * x + b * y + c * z + d * w <= 30274 * spread
  {
    OneTerm(a, x, spread);
    OneTerm(b, y, spread);
    OneTerm(c, z, spread);
    OneTerm(d, w, spread);
    TimesSpread(Magnitude(a), Magnitude(b), Magnitude(c), Magnitude(d), spread);
  }

  lemma TimesSpread(a: nat, b: nat, c: nat, d: nat, spread: nat)
    requires a + b + c + d <= 30274
    ensures a * spread + b * spread + c * spread + d * spread <= 30274 * spread
  {
    MulDistributes(a, b, spread);
    MulDistributes(a + b, c, spread);
    MulDistributes(a + b + c, d, spread);
    MulBelow(a + b + c + d, 30274, spread, spread);
  }

  lemma EvenOfSpread(d: seq<int>, low: int, high: int)
    requires Within(d, low, high) && -4096 <= low <= high <= 4096
    ensures var r, spread := EvenOf(d), high - low;
            && -4 * spread <= r.1 <= 4 * spread
            && -30274 * spread <= r.2 <= 30274 * spread && -30274 * spread <= r.3 <= 30274 * spread
  {
    EvenSpread(d[0] + d[7], d[1] + d[6], d[2] + d[5], d[3] + d[4], 2 * low, high - low);
  }

  lemma OddOfSpread(d: seq<int>, low: int, high: int)
    requires Within(d, low, high) && -4096 <= low <= high <= 4096
    ensures PartWithin(OddOf(d), 30274 * (high - low))
  {
    OddSpread(d[3] - d[4], d[2] - d[5], d[1] - d[6], d[0] - d[7], high - low);
  }

  lemma InterleaveSpread(even: Part, odd: Part, spread: nat)
    requires PartWithin(even, 0x2000_0000) && PartWithin(odd, 0x2000_0000) && PartWithin(odd, 30274 * spread)
    requires -4 * spread <= even.1 <= 4 * spread
    requires -30274 * spread <= even.2 <= 30274 * spread && -30274 * spread <= even.3 <= 30274 * spread
    ensures Spread(Interleave(even, odd), spread)
  {
  }

  lemma PassSpread(d: seq<int>, low: int, high: int)
    requires Within(d, low, high) && -4096 <= low <= high <= 4096
    ensures Pass(d)[0] == Sum8(d)
    ensures Spread(Pass(d), high - low)
  {
    EvenOfSpread(d, low, high);
    OddOfSpread(d, low, high);
    InterleaveSpread(EvenOf(d), OddOf(d), high - low);
  }

  lemma RowScaleBounds(p: seq<int>)
    requires Spread(p, 255)
    ensures forall k :: 1 <= k < 8 ==> -4080 <= RowScale(p)[k] <= 4080
  {
    forall k | 1 <= k < 8 ensures -4080 <= RowScale(p)[k] <= 4080 {
      DescaleValues(p[k]);
    }
  }

  lemma ColumnScaleBounds(p: seq<int>)
    requires Spread(p, 8160)
    ensures ColumnScale(p)[0] == (p[0] + 2) / 4
    ensures forall k :: 1 <= k < 8 ==> -8160 <= ColumnScale(p)[k] <= 8160
  {
    DescaleValues(p[0]);
    forall k | 1 <= k < 8 ensures -8160 <= ColumnScale(p)[k] <= 8160 {
      DescaleValues(p[k]);
    }
  }

  function RowPass(d: seq<int>): (r: seq<int>)
    requires Within(d, -128, 127)
    ensures |r| == 8
  {
    RowScale(Pass(d))
  }

  function ColumnPass(d: seq<int>): (r: seq<int>)
    requires Within(d, -4096, 4096)
    ensures |r| == 8
  {
    ColumnScale(Pass(d))
  }

  lemma SpreadMono(p: seq<int>, less: nat, more: nat)
    requires Spread(p, less) && less <= more
    ensures Spread(p, more)
  {
  }

  lemma Sum8Within(d: seq<int>, low: int, high: int)
    requires Within(d, low, high)
    ensures 8 * low <= Sum8(d) <= 8 * high
  {
  }

  /** The row pass fits the column pass: its first output is four times the sum, the others are
      within 4080. */
  lemma RowPassBounds(d: seq<int>)
    requires Within(d, -128, 127)
    ensures RowPass(d)[0] == 4 * Sum8(d) && -4096 <= 4 * Sum8(d) <= 4064
    ensures forall k :: 1 <= k < 8 ==> -4080 <= RowPass(d)[k] <= 4080
  {
    PassSpread(d, -128, 127);
    RowScaleBounds(Pass(d));
    Sum8Within(d, -128, 127);
  }

  /** The column pass keeps every output inside 16 bits: 8160 at most, but for the first. */
  lemma ColumnPassBounds(d: seq<int>, low: int, high: int)
    requires Within(d, low, high) && -4096 <= low <= high <= 4096 && high - low <= 8160
    ensures ColumnPass(d)[0] == (Sum8(d) + 2) / 4
    ensures forall k :: 1 <= k < 8 ==> -8160 <= ColumnPass(d)[k] <= 8160
  {
    PassSpread(d, low, high);
    SpreadMono(Pass(d), high - low, 8160);
    ColumnScaleBounds(Pass(d));
  }

  // ---------------------------------------------------------------- the whole block

  /** Level-shifted samples, as get_block produces them. */
  predicate Samples(block: seq<int>)
  {
    |block| == 64 && forall i :: 0 <= i < 64 ==> -128 <= block[i] <= 127
  }

  function Row(block: seq<int>, y: nat): (r: seq<int>)
    requires Samples(block) && y < 8
    ensures Within(r, -128, 127)
  {
    seq(8, k requires 0 <= k < 8 => block[8 * y + k])
  }

  /** data2 at an index, once the row pass is done. */
  function RowCell(block: seq<int>, i: nat): (r: int)
    requires Samples(block) && i < 64
  {
    RowPass(Row(block, i / 8))[i % 8]
  }

  /** The part of data2 that the column pass reads for one column. */
  function Column(block: seq<int>, x: nat): (r: seq<int>)
    requires Samples(block) && x < 8
    ensures |r| == 8
  {
    seq(8, k requires 0 <= k < 8 => RowPass(Row(block, k))[x])
  }

  lemma ColumnWithin(block: seq<int>, x: nat)
    requires Samples(block) && x < 8
    ensures if x == 0 then Within(Column(block, x), -4096, 4064) else Within(Column(block, x), -4080, 4080)
    ensures Within(Column(block, x), -4096, 4096)
    ensures forall k :: 0 <= k < 8 ==> x == 0 ==> Column(block, x)[k] == 4 * Sum8(Row(block, k))
  {
    forall k | 0 <= k < 8
      ensures x == 0 ==> -4096 <= Column(block, x)[k] <= 4064 && Column(block, x)[k] == 4 * Sum8(Row(block, k))
      ensures x > 0 ==> -4080 <= Column(block, x)[k] <= 4080
    {
      RowPassBounds(Row(block, k));
    }
  }

  /** The transform of one sample block at an index. */
  function Cell(block: seq<int>, i: nat): (r: int)
    requires Samples(block) && i < 64
  {
    ColumnWithin(block, i % 8);
    ColumnPass(Column(block, i % 8))[i / 8]
  }

  function Sum(s: seq<int>): int
  {
    if s == [] then 0 else s[0] + Sum(s[1..])
  }

  lemma {:induction false} SumOfRows(block: seq<int>, y: nat)
    requires Samples(block) && y <= 8
    ensures y < 8 ==> Sum(block[8 * y..]) == Sum8(Row(block, y)) + Sum(block[8 * y + 8..])
  {
    if y < 8 {
      SumFrom(block, 8 * y);
      SumFrom(block, 8 * y + 1);
      SumFrom(block, 8 * y + 2);
      SumFrom(block, 8 * y + 3);
      SumFrom(block, 8 * y + 4);
      SumFrom(block, 8 * y + 5);
      SumFrom(block, 8 * y + 6);
      SumFrom(block, 8 * y + 7);
    }
  }

  lemma SumFrom(s: seq<int>, i: nat)
    requires i < |s|
    ensures Sum(s[i..]) == s[i] + Sum(s[i + 1..])
  {
    assert s[i..][1..] == s[i + 1..];
  }

  /** The sum of the rows' sums. */
  lemma RowSums(block: seq<int>)
    requires Samples(block)
    ensures Sum(block) == Sum8(seq(8, k requires 0 <= k < 8 => Sum8(Row(block, k))))
  {
    assert block[0..] == block;
    assert Sum(block[64..]) == 0;
    SumOfRows(block, 0);
    SumOfRows(block, 1);
    SumOfRows(block, 2);
    SumOfRows(block, 3);
    SumOfRows(block, 4);
    SumOfRows(block, 5);
    SumOfRows(block, 6);
    SumOfRows(block, 7);
  }

  lemma Sum8Scale(a: seq<int>, b: seq<int>)
    requires |a| == 8 && |b| == 8 && forall k :: 0 <= k < 8 ==> a[k] == 4 * b[k]
    ensures Sum8(a) == 4 * Sum8(b)
  {
  }

  lemma FirstColumnSum(block: seq<int>)
    requires Samples(block)
    ensures Sum8(Column(block, 0)) == 4 * Sum(block)
    ensures -8192 <= Sum(block) <= 8128
  {
    var sums := seq(8, k requires 0 <= k < 8 => Sum8(Row(block, k)));
    ColumnWithin(block, 0);
    Sum8Scale(Column(block, 0), sums);
    Sum8Within(Column(block, 0), -4096, 4064);
    RowSums(block);
  }

  /** The first output is exactly the sum of the samples. */
  lemma FirstCell(block: seq<int>)
    requires Samples(block)
    ensures Cell(block, 0) == Sum(block) && -8192 <= Sum(block) <= 8128
  {
    ColumnWithin(block, 0);
    FirstColumnSum(block);
    FirstOutput(Column(block, 0), Sum(block));
  }

  lemma FirstOutput(column: seq<int>, total: int)
    requires Within(column, -4096, 4064) && Sum8(column) == 4 * total
    ensures ColumnPass(column)[0] == total
  {
    ColumnPassBounds(column, -4096, 4064);
  }

  lemma TopCells(column: seq<int>)
    requires Within(column, -4080, 4080)
    ensures -8160 <= ColumnPass(column)[0] <= 8160
  {
    ColumnPassBounds(column, -4080, 4080);
    Sum8Within(column, -4080, 4080);
  }

  /** Every other output is within 8160. */
  lemma OtherCells(block: seq<int>, i: nat)
    requires Samples(block) && 0 < i < 64
    ensures -8160 <= Cell(block, i) <= 8160
  {
    var x := i % 8;
    ColumnWithin(block, x);
    if x == 0 {
      ColumnPassBounds(Column(block, x), -4096, 4064);
    } else {
      TopCells(Column(block, x));
      ColumnPassBounds(Column(block, x), -4080, 4080);
    }
  }

  /** The transformed block: into_el cuts every output to 16 bits. */
  function Transform(block: seq<int>): (r: Block)
    requires Samples(block)
  {
    seq(64, i requires 0 <= i < 64 => Wrap16(Cell(block, i)))
  }

  lemma WrapSame(v: int)
    requires -0x8000 <= v < 0x8000
    ensures Wrap16(v) == v
  {
  }

  lemma TransformAt(block: seq<int>, i: nat, v: int)
    requires Samples(block) && i < 64 && v == Cell(block, i) && -8192 <= v <= 8160
    ensures Transform(block)[i] == v
  {
    WrapSame(v);
  }

  /** The cut loses nothing: output 0 is exactly the sum of the samples, and the bounds of the
      others leave room for ten-bit quantised values. */
  lemma TransformBounds(block: seq<int>)
    requires Samples(block)
    ensures Transform(block)[0] == Sum(block) && -8192 <= Sum(block) <= 8128
    ensures forall i :: 0 < i < 64 ==> Transform(block)[i] == Cell(block, i) && -8160 <= Transform(block)[i] <= 8160
  {
    FirstCell(block);
    TransformAt(block, 0, Sum(block));
    forall i | 0 < i < 64
      ensures Transform(block)[i] == Cell(block, i) && -8160 <= Transform(block)[i] <= 8160
    {
      OtherCells(block, i);
      TransformAt(block, i, Cell(block, i));
    }
  }

  // ---------------------------------------------------------------- how near the outputs are

  /** The eight coefficients of output u of a pass, scaled by 2^13. */
  function Coefficients(u: nat): (r: seq<int>)
    requires u < 8
    ensures |r| == 8
  {
    match u
    case 0 => [8192, 8192, 8192, 8192, 8192, 8192, 8192, 8192]
    case 1 => [11363, 9633, 6437, 2260, -2260, -6437, -9633, -11363]
    case 2 => [10703, 4433, -4433, -10703, -10703, -4433, 4433, 10703]
    case 3 => [9633, -2259, -11362, -6436, 6436, 11362, 2259, -9633]
    case 4 => [8192, -8192, -8192, 8192, 8192, -8192, -8192, 8192]
    case 5 => [6437, -11362, 2261, 9633, -9633, -2261, 11362, -6437]
    case 6 => [4433, -10704, 10704, -4433, -4433, 10704, -10704, 4433]
    case 7 => [2260, -6436, 9633, -11363, 11363, -9633, 6436, -2260]
  }

  /** 8192 times the square root of 2 times the cosines of 0 to 8 sixteenths of a half turn: positive numbers
      that end with zero and obey the double-angle identities. */
  ghost predicate Cosines(c: seq<real>)
  {
    && |c| == 9 && c[8] == 0.0 && (forall n :: 0 <= n < 8 ==> c[n] > 0.0)
    && c[0] * c[0] == 134217728.0
    && (forall n, m :: 0 < n <= 4 && m == 2 * n ==> 2.0 * (c[n] * c[n]) == c[0] * (c[0] + c[m]))
    && (forall n, m :: 4 < n < 8 && m == 16 - 2 * n ==> 2.0 * (c[n] * c[n]) == c[0] * (c[0] - c[m]))
  }

  /** The cosine of any number of sixteenths of a half turn. */
  ghost function CosineOf(c: seq<real>, n: nat): real
    requires |c| == 9
  {
    var m := if n % 32 > 16 then 32 - n % 32 else n % 32;
    if m > 8 then -c[16 - m] else c[m]
  }

  lemma SquaresGrow(a: real, b: real)
    requires 0.0 < a < b
    ensures a * a < b * b
  {
    assert a * a < a * b < b * b;
  }

  lemma Root(x: real, low: real, high: real)
    requires x > 0.0 && 0.0 < low && 0.0 < high && low * low <= x * x <= high * high
    ensures low <= x <= high
  {
    if x < low {
      SquaresGrow(x, low);
    }
    if x > high {
      SquaresGrow(high, x);
    }
  }

  lemma ProductBetween(a: real, b: real, lowA: real, highA: real, lowB: real, highB: real)
    requires 0.0 < lowA <= a <= highA && 0.0 < lowB <= b <= highB
    ensures lowA * lowB <= a * b <= highA * highB
  {
    assert lowA * lowB <= a * lowB <= a * b;
    assert a * b <= highA * b <= highA * highB;
  }

  lemma RealDistributes(a: real, b: real)
    ensures a * (a + b) == a * a + a * b && a * (a - b) == a * a - a * b
  {
  }

  lemma CosineZero(c: seq<real>)
    requires Cosines(c)
    ensures 11585.237 <= c[0] <= 11585.238 && c[4] == 8192.0
  {
    Root(c[0], 11585.237, 11585.238);
    RealDistributes(c[0], c[8]);
    assert 2.0 * (c[4] * c[4]) == c[0] * (c[0] + c[8]);
    Root(c[4], 8192.0, 8192.0);
  }

  lemma CosineTwo(c: seq<real>)
    requires Cosines(c)
    ensures 10703.362 <= c[2] <= 10703.365
  {
    CosineZero(c);
    assert 2.0 * (c[2] * c[2]) == c[0] * (c[0] + c[4]);
    RealDistributes(c[0], c[4]);
    ProductBetween(c[0], c[4], 11585.237, 11585.238, 8192.0, 8192.0);
    Root(c[2], 10703.362, 10703.365);
  }

  lemma CosineSix(c: seq<real>)
    requires Cosines(c)
    ensures 4433.477 <= c[6] <= 4433.480
  {
    CosineZero(c);
    assert 2.0 * (c[6] * c[6]) == c[0] * (c[0] - c[4]);
    RealDistributes(c[0], c[4]);
    ProductBetween(c[0], c[4], 11585.237, 11585.238, 8192.0, 8192.0);
    Root(c[6], 4433.477, 4433.480);
  }

  lemma CosineOne(c: seq<real>)
    requires Cosines(c)
    ensures 11362.629 <= c[1] <= 11362.632
  {
    CosineZero(c);
    CosineTwo(c);
    assert 2.0 * (c[1] * c[1]) == c[0] * (c[0] + c[2]);
    RealDistributes(c[0], c[2]);
    ProductBetween(c[0], c[2], 11585.237, 11585.238, 10703.362, 10703.365);
    Root(c[1], 11362.629, 11362.632);
  }

  lemma CosineThree(c: seq<real>)
    requires Cosines(c)
    ensures 9632.771 <= c[3] <= 9632.774
  {
    CosineZero(c);
    CosineSix(c);
    assert 2.0 * (c[3] * c[3]) == c[0] * (c[0] + c[6]);
    RealDistributes(c[0], c[6]);
    ProductBetween(c[0], c[6], 11585.237, 11585.238, 4433.477, 4433.480);
    Root(c[3], 9632.771, 9632.774);
  }

  lemma CosineFive(c: seq<real>)
    requires Cosines(c)
    ensures 6436.412 <= c[5] <= 6436.415
  {
    CosineZero(c);
    CosineSix(c);
    assert 2.0 * (c[5] * c[5]) == c[0] * (c[0] - c[6]);
    RealDistributes(c[0], c[6]);
    ProductBetween(c[0], c[6], 11585.237, 11585.238, 4433.477, 4433.480);
    Root(c[5], 6436.412, 6436.415);
  }

  lemma CosineSeven(c: seq<real>)
    requires Cosines(c)
    ensures 2260.1 <= c[7] <= 2260.3
  {
    CosineZero(c);
    CosineTwo(c);
    assert 2.0 * (c[7] * c[7]) == c[0] * (c[0] - c[2]);
    RealDistributes(c[0], c[2]);
    ProductBetween(c[0], c[2], 11585.237, 11585.238, 10703.362, 10703.365);
    Root(c[7], 2260.1, 2260.3);
  }

  /** The cosines, rounded. */
  function QuarterCosine(n: nat): int
    requires n <= 8
  {
    match n
    case 0 => 11585
    case 1 => 11363
    case 2 => 10703
    case 3 => 9633
    case 4 => 8192
    case 5 => 6436
    case 6 => 4433
    case 7 => 2260
    case _ => 0
  }

  /** Every entry is the cosine, rounded to the nearest integer. */
  lemma QuarterCosinesRound(c: seq<real>, n: nat)
    requires Cosines(c) && n <= 8
    ensures -0.5 < QuarterCosine(n) as real - c[n] < 0.5
  {
    match n
    case 0 => CosineZero(c);
    case 1 => CosineOne(c);
    case 2 => CosineTwo(c);
    case 3 => CosineThree(c);
    case 4 => CosineZero(c);
    case 5 => CosineFive(c);
    case 6 => CosineSix(c);
    case 7 => CosineSeven(c);
    case _ =>
  }

  function ScaledCosine(n: nat): int
  {
    var m := if n % 32 > 16 then 32 - n % 32 else n % 32;
    if m > 8 then -QuarterCosine(16 - m) else QuarterCosine(m)
  }

  lemma ScaledCosineRounds(c: seq<real>, n: nat)
    requires Cosines(c)
    ensures -0.5 < ScaledCosine(n) as real - CosineOf(c, n) < 0.5
  {
    var m := if n % 32 > 16 then 32 - n % 32 else n % 32;
    QuarterCosinesRound(c, if m > 8 then 16 - m else m);
  }

  predicate IsRounded(c: int, n: nat)
  {
    -1 <= c - ScaledCosine(n) <= 1
  }

  predicate RowIsRounded(u: nat, n: nat)
    requires u < 8
  {
    var c := Coefficients(u);
    && IsRounded(c[0], n) && IsRounded(c[1], 3 * n) && IsRounded(c[2], 5 * n) && IsRounded(c[3], 7 * n)
    && IsRounded(c[4], 9 * n) && IsRounded(c[5], 11 * n) && IsRounded(c[6], 13 * n) && IsRounded(c[7], 15 * n)
  }

  lemma Row1IsRounded()
    ensures RowIsRounded(1, 1)
  {
  }

  lemma Row2IsRounded()
    ensures RowIsRounded(2, 2)
  {
  }

  lemma Row3IsRounded()
    ensures RowIsRounded(3, 3)
  {
  }

  lemma Row4IsRounded()
    ensures RowIsRounded(4, 4)
  {
  }

  lemma Row5IsRounded()
    ensures RowIsRounded(5, 5)
  {
  }

  lemma Row6IsRounded()
    ensures RowIsRounded(6, 6)
  {
  }

  lemma Row7IsRounded()
    ensures RowIsRounded(7, 7)
  {
  }

  lemma RowsAreRounded(u: nat)
    requires 0 < u < 8
    ensures RowIsRounded(u, u)
  {
    match u
    case 1 => Row1IsRounded();
    case 2 => Row2IsRounded();
    case 3 => Row3IsRounded();
    case 4 => Row4IsRounded();
    case 5 => Row5IsRounded();
    case 6 => Row6IsRounded();
    case 7 => Row7IsRounded();
  }

  ghost predicate IsCosine(c: int, cosines: seq<real>, n: nat)
    requires |cosines| == 9
  {
    -1.5 < c as real - CosineOf(cosines, n) < 1.5
  }

  ghost predicate RowIsCosine(u: nat, cosines: seq<real>, n: nat)
    requires u < 8 && |cosines| == 9
  {
    var c := Coefficients(u);
    && IsCosine(c[0], cosines, n) && IsCosine(c[1], cosines, 3 * n) && IsCosine(c[2], cosines, 5 * n)
    && IsCosine(c[3], cosines, 7 * n) && IsCosine(c[4], cosines, 9 * n) && IsCosine(c[5], cosines, 11 * n)
    && IsCosine(c[6], cosines, 13 * n) && IsCosine(c[7], cosines, 15 * n)
  }

  lemma RoundedIsCosine(c: int, cosines: seq<real>, n: nat)
    requires Cosines(cosines) && IsRounded(c, n)
    ensures IsCosine(c, cosines, n)
  {
    ScaledCosineRounds(cosines, n);
  }

  /** Coefficient k of output u > 0 is the cosine of (2k + 1) u sixteenths of a half turn, to within one and
      a half units: the basis of the transform of section A.3.3 of T.81. */
  lemma CoefficientsAreCosines(u: nat, cosines: seq<real>)
    requires 0 < u < 8 && Cosines(cosines)
    ensures RowIsCosine(u, cosines, u)
  {
    var c := Coefficients(u);
    RowsAreRounded(u);
    RoundedIsCosine(c[0], cosines, u);
    RoundedIsCosine(c[1], cosines, 3 * u);
    RoundedIsCosine(c[2], cosines, 5 * u);
    RoundedIsCosine(c[3], cosines, 7 * u);
    RoundedIsCosine(c[4], cosines, 9 * u);
    RoundedIsCosine(c[5], cosines, 11 * u);
    RoundedIsCosine(c[6], cosines, 13 * u);
    RoundedIsCosine(c[7], cosines, 15 * u);
  }

  function Dot(c: seq<int>, d: seq<int>): int
    requires |c| == 8 && |d| == 8
  {
    c[0] * d[0] + c[1] * d[1] + c[2] * d[2] + c[3] * d[3] + c[4] * d[4] + c[5] * d[5] + c[6] * d[6] + c[7] * d[7]
  }

  /** A pass computes exactly the products with its coefficients, but for the scale of outputs 0 and 4. */
  lemma PassIsDot(d: seq<int>, u: nat)
    requires Within(d, -4096, 4096) && u < 8
    ensures Dot(Coefficients(u), d) == if Unscaled(u) then 8192 * Pass(d)[u] else Pass(d)[u]
  {
  }

  lemma RowNear(d: seq<int>, u: nat)
    requires Within(d, -128, 127) && u < 8
    ensures -1024 <= 2048 * RowPass(d)[u] - Dot(Coefficients(u), d) <= 1024
  {
    PassIsDot(d, u);
    DescaleValues(Pass(d)[u]);
  }

  lemma ColumnNear(d: seq<int>, v: nat)
    requires Within(d, -4096, 4096) && v < 8
    ensures -16384 <= 32768 * ColumnPass(d)[v] - Dot(Coefficients(v), d) <= 16384
  {
    PassIsDot(d, v);
    DescaleValues(Pass(d)[v]);
  }

  predicate Near(a: seq<int>, b: seq<int>)
    requires |a| == 8 && |b| == 8
  {
    forall k :: 0 <= k < 8 ==> -1024 <= 2048 * a[k] - b[k] <= 1024
  }

  /** No output magnifies an error more than 65536 times. */
  lemma DotNear(v: nat, a: seq<int>, b: seq<int>)
    requires v < 8 && |a| == 8 && |b| == 8 && Near(a, b)
    ensures -0x400_0000 <= 2048 * Dot(Coefficients(v), a) - Dot(Coefficients(v), b) <= 0x400_0000
  {
  }

  /** Column u of the exact row forms. */
  function ExactColumn(block: seq<int>, u: nat): (r: seq<int>)
    requires Samples(block) && u < 8
    ensures |r| == 8
  {
    seq(8, y requires 0 <= y < 8 => Dot(Coefficients(u), Row(block, y)))
  }

  /** The exact two-dimensional form of output i: the sum of all samples, each times its coefficient in
      either direction, scaled by 2^26. */
  function Exact(block: seq<int>, i: nat): int
    requires Samples(block) && i < 64
  {
    Dot(Coefficients(i / 8), ExactColumn(block, i % 8))
  }

  lemma ColumnNearExact(block: seq<int>, u: nat)
    requires Samples(block) && u < 8
    ensures Near(Column(block, u), ExactColumn(block, u))
  {
    forall k | 0 <= k < 8 ensures -1024 <= 2048 * Column(block, u)[k] - ExactColumn(block, u)[k] <= 1024 {
      RowNear(Row(block, k), u);
    }
  }

  lemma NearBoth(out: int, column: int, exact: int)
    requires -16384 <= 32768 * out - column <= 16384 && -0x400_0000 <= 2048 * column - exact <= 0x400_0000
    ensures -0x600_0000 <= 0x400_0000 * out - exact <= 0x600_0000
  {
  }

  lemma CellNear(block: seq<int>, i: nat)
    requires Samples(block) && i < 64
    ensures -0x600_0000 <= 0x400_0000 * Cell(block, i) - Exact(block, i) <= 0x600_0000
  {
    var u, v := i % 8, i / 8;
    var column := Column(block, u);
    ColumnWithin(block, u);
    ColumnNear(column, v);
    ColumnNearExact(block, u);
    DotNear(v, column, ExactColumn(block, u));
    NearBoth(ColumnPass(column)[v], Dot(Coefficients(v), column), Exact(block, i));
  }

  /** Every output is within one and a half of the exact form. */
  lemma TransformNear(block: seq<int>, i: nat)
    requires Samples(block) && i < 64
    ensures -0x600_0000 <= 0x400_0000 * Transform(block)[i] - Exact(block, i) <= 0x600_0000
  {
    TransformBounds(block);
    if i == 0 {
      FirstCell(block);
    }
    CellNear(block, i);
  }

  // ---------------------------------------------------------------- in place

  lemma Split(y: nat, k: nat)
    requires k < 8
    ensures (8 * y + k) / 8 == y && (8 * y + k) % 8 == k
  {
  }

  /** Stores the eight outputs of a row. */
  method StoreRow(p: seq<int>, data2: array<int>, y: nat)
    requires data2.Length == 64 && |p| == 8 && y < 8
    modifies data2
    ensures forall i :: 0 <= i < 64 ==> data2[i] == if i / 8 == y then p[i % 8] else old(data2[i])
  {
    for k := 0 to 8
      invariant forall i :: 0 <= i < 64 ==>
        data2[i] == if 8 * y <= i < 8 * y + k then p[i - 8 * y] else old(data2[i])
    {
      data2[8 * y + k] := p[k];
    }
  }

  /** Stores the eight outputs of a column, each cut to 16 bits. */
  method StoreColumn(p: seq<int>, data: array<int16>, x: nat)
    requires data.Length == 64 && |p| == 8 && x < 8
    modifies data
    ensures forall i :: 0 <= i < 64 ==> data[i] == if i % 8 == x then Wrap16(p[i / 8]) else old(data[i])
  {
    for k := 0 to 8
      invariant forall i :: 0 <= i < 64 ==>
        data[i] == if i % 8 == x && i / 8 < k then Wrap16(p[i / 8]) else old(data[i])
    {
      Split(k, x);
      data[8 * k + x] := Wrap16(p[k]);
    }
  }

  /** data2 after the row pass. */
  function BufferOf(block: seq<int>): (r: seq<int>)
    requires Samples(block)
    ensures |r| == 64
  {
    seq(64, i requires 0 <= i < 64 => RowCell(block, i))
  }

  lemma RowsStored(block: seq<int>, y: nat, p: seq<int>, before: seq<int>, data2: seq<int>)
    requires Samples(block) && y < 8 && p == RowPass(Row(block, y)) && |before| == 64 && |data2| == 64
    requires forall i :: 0 <= i < 8 * y ==> before[i] == BufferOf(block)[i]
    requires forall i :: 0 <= i < 64 ==> data2[i] == if i / 8 == y then p[i % 8] else before[i]
    ensures forall i :: 0 <= i < 8 * (y + 1) ==> data2[i] == BufferOf(block)[i]
  {
  }

  lemma ColumnOfBuffer(block: seq<int>, x: nat, d: seq<int>)
    requires Samples(block) && x < 8
    requires |d| == 8 && forall k :: 0 <= k < 8 ==> d[k] == BufferOf(block)[8 * k + x]
    ensures d == Column(block, x)
  {
    forall k | 0 <= k < 8 ensures d[k] == Column(block, x)[k] {
      Split(k, x);
    }
  }

  lemma TransformCell(block: seq<int>, i: nat)
    requires Samples(block) && i < 64
    ensures Within(Column(block, i % 8), -4096, 4096)
    ensures Transform(block)[i] == Wrap16(ColumnPass(Column(block, i % 8))[i / 8])
  {
    ColumnWithin(block, i % 8);
  }

  lemma ColumnRead(block: seq<int>, x: nat, d: seq<int>)
    requires Samples(block) && x < 8
    requires |d| == 8 && forall k :: 0 <= k < 8 ==> d[k] == BufferOf(block)[8 * k + x]
    ensures Within(d, -4096, 4096)
    ensures forall i :: 0 <= i < 64 && i % 8 == x ==> Transform(block)[i] == Wrap16(ColumnPass(d)[i / 8])
  {
    ColumnOfBuffer(block, x, d);
    ColumnWithin(block, x);
    forall i | 0 <= i < 64 && i % 8 == x ensures Transform(block)[i] == Wrap16(ColumnPass(d)[i / 8]) {
      TransformCell(block, i);
    }
  }

  /** Pass 1: every row into a buffer of words. */
  method RowPasses(data: array<int16>) returns (data2: array<int>)
    requires data.Length == 64 && Samples(data[..])
    ensures fresh(data2) && data2[..] == BufferOf(data[..])
  {
    ghost var block := data[..];
    data2 := new int[64](_ => 0);
    for y := 0 to 8
      invariant forall i :: 0 <= i < 8 * y ==> data2[i] == BufferOf(block)[i]
    {
      var d := data[8 * y..8 * y + 8];
      assert d == Row(block, y);
      var p := RowPass(d);
      ghost var before := data2[..];
      StoreRow(p, data2, y);
      RowsStored(block, y, p, before, data2[..]);
    }
  }

  function ReadColumn(data2: seq<int>, x: nat): (d: seq<int>)
    requires |data2| == 64 && x < 8
    ensures |d| == 8 && forall k :: 0 <= k < 8 ==> d[k] == data2[8 * k + x]
  {
    [data2[x], data2[8 + x], data2[16 + x], data2[24 + x], data2[32 + x], data2[40 + x], data2[48 + x], data2[56 + x]]
  }

  /** One column of the buffer back in place. */
  method ColumnBack(data: array<int16>, data2: array<int>, x: nat, ghost block: seq<int>)
    requires data.Length == 64 && Samples(block) && (data as object) != data2 && x < 8
    requires data2[..] == BufferOf(block)
    modifies data
    ensures forall i :: 0 <= i < 64 ==> data[i] == if i % 8 == x then Transform(block)[i] else old(data[i])
  {
    var d := ReadColumn(data2[..], x);
    ColumnRead(block, x, d);
    StoreColumn(ColumnPass(d), data, x);
  }

  /** Pass 2: every column back in place. */
  method ColumnPasses(data: array<int16>, data2: array<int>, ghost block: seq<int>)
    requires data.Length == 64 && Samples(block) && (data as object) != data2
    requires data2[..] == BufferOf(block)
    modifies data
    ensures data[..] == Transform(block)
  {
    for x := 0 to 8
      invariant data2[..] == BufferOf(block)
      invariant forall i :: 0 <= i < 64 && i % 8 < x ==> data[i] == Transform(block)[i]
    {
      ColumnBack(data, data2, x, block);
    }
  }

  /** fdct. */
  method Fdct(data: array<int16>)
    requires data.Length == 64 && Samples(data[..])
    modifies data
    ensures data[..] == Transform(old(data[..]))
  {
    var data2 := RowPasses(data);
    ColumnPasses(data, data2, data[..]);
  }
}

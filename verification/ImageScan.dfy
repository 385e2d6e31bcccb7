/** From an image to the units of its interleaved scan: sampling, transform and quantisation, in MCU order. */
module ImageScan {
  import opened Bits
  import opened EntropyCoding
  import opened ForwardDct
  import opened Quantization
  import opened Sampling
  import opened Scan
  import opened ScanEncoder
  import opened Sequences
  import opened Zigzag

  type QuantTable = t: seq<nat> | |t| == 64 && forall i :: 0 <= i < 64 ==> IsEntry(t[i]) witness seq(64, _ => 8)

  /** The quantised value at a place of the block. */
  function QuantizedAt(block: Block, table: QuantTable, z: nat): int16
    requires z < 64
  {
    Quantize(block[z], ComputeReciprocal(table[z]))
  }

  /** quantize_block: quantised, in zigzag order. */
  method QuantizeBlock(block: Block, table: QuantTable) returns (qBlock: Block)
    ensures qBlock == Quantized(block, table)
  {
    var q: seq<int16> := [];
    for i := 0 to 64
      invariant |q| == i && forall k :: 0 <= k < i ==> q[k] == QuantizedAt(block, table, ZigzagAt(k))
    {
      var z := ZigzagAt(i);
      q := q + [QuantizedAt(block, table, z)];
    }
    qBlock := q;
  }

  function Quantized(block: Block, table: QuantTable): Block
  {
    seq(64, i requires 0 <= i < 64 => QuantizedAt(block, table, ZigzagAt(i)))
  }

  lemma QuantizedEntry(block: Block, table: QuantTable, k: nat, z: nat)
    requires k < 64 && z == ZigzagAt(k)
    ensures Quantized(block, table)[k] == QuantizedAt(block, table, z)
  {
  }

  /** Undoing the zigzag order gives each coefficient its own value, quantised with its own entry. */
  lemma UnzigzagQuantized(block: Block, table: QuantTable, z: nat)
    requires z < 64
    ensures Unzigzag(Quantized(block, table))[z] == QuantizedAt(block, table, z)
  {
    UnzigzagIs(Quantized(block, table), z);
    QuantizedEntry(block, table, ZigzagIndex(z), z);
  }

  lemma QuotientBound(x: nat, d: nat, m: nat, s: nat)
    requires IsEntry(d) && m * d + s == x + d / 2
    ensures m <= (x + 4) / 8
  {
    if m > 0 {
      MulBelow(8, d, 2 * m - 1, 2 * m - 1);
      assert 8 * (2 * m - 1) <= d * (2 * m - 1);
      assert d * (2 * m - 1) == 2 * (m * d) - d;
    }
  }

  /** No quantised value is more than one beyond an eighth of the largest input. */
  lemma QuantizeBound(value: int16, d: nat, low: int, high: nat)
    requires IsEntry(d) && low <= value <= high && low <= 0
    ensures -((4 - low) / 8) - 1 <= Quantize(value, ComputeReciprocal(d)) <= (high + 4) / 8 + 1
  {
    var q, f, m, s := EntryParts(Magnitude(value), d);
    QuantizeRounds(value, d);
    QuotientBound(Magnitude(value), d, m, s);
  }

  // ---------------------------------------------------------------- the frame

  /** What an image is encoded with. */
  datatype Frame = Frame(image: Image, components: seq<Component>, qTables: seq<QuantTable>)

  predicate SmallFactor(factor: nat)
  {
    factor == 1 || factor == 2
  }

  /** A frame the interleaved scans are for: a plane a component, sampling factors of 1 and 2, and those of a
      single component are 1. */
  ghost predicate ValidFrame(f: Frame)
  {
    && ValidImage(f.image) && |f.qTables| == 2
    && 0 < |f.components| <= 4 && |f.image.planes| == |f.components|
    && (forall c :: 0 <= c < |f.components| ==>
          SmallFactor(f.components[c].horizontal) && SmallFactor(f.components[c].vertical))
    && (|f.components| == 1 ==> f.components[0].horizontal == f.components[0].vertical == 1)
  }

  function Max(a: nat, b: nat): nat
  {
    if a > b then a else b
  }

  /** get_max_sampling_size. */
  method GetMaxSamplingSize(components: seq<Component>) returns (maxH: nat, maxV: nat)
    ensures maxH == MaxH(components) && maxV == MaxV(components)
  {
    maxH, maxV := 1, 1;
    for c := 0 to |components|
      invariant maxH == MaxH(components[..c]) && maxV == MaxV(components[..c])
    {
      assert components[..c + 1] == components[..c] + [components[c]];
      maxH, maxV := Max(maxH, components[c].horizontal), Max(maxV, components[c].vertical);
    }
    assert components[..|components|] == components;
  }

  function MaxH(components: seq<Component>): (m: nat)
    ensures m > 0
  {
    if components == [] then 1
    else Max(MaxH(components[..|components| - 1]), components[|components| - 1].horizontal)
  }

  function MaxV(components: seq<Component>): (m: nat)
    ensures m > 0
  {
    if components == [] then 1
    else Max(MaxV(components[..|components| - 1]), components[|components| - 1].vertical)
  }

  lemma {:induction false} MaxFactors(components: seq<Component>)
    requires forall c :: 0 <= c < |components| ==>
               SmallFactor(components[c].horizontal) && SmallFactor(components[c].vertical)
    ensures SmallFactor(MaxH(components)) && SmallFactor(MaxV(components))
    ensures forall c :: 0 <= c < |components| ==>
              Factor(components[c].horizontal, MaxH(components)) && Factor(components[c].vertical, MaxV(components))
  {
    if components != [] {
      MaxFactors(components[..|components| - 1]);
    }
  }

  /** Some component has the largest factor of each direction, which is 1 for no components. */
  lemma {:induction false} MaxAttained(components: seq<Component>)
    ensures MaxH(components) == 1 || exists c :: 0 <= c < |components| && components[c].horizontal == MaxH(components)
    ensures MaxV(components) == 1 || exists c :: 0 <= c < |components| && components[c].vertical == MaxV(components)
    ensures forall c :: 0 <= c < |components| ==>
              components[c].horizontal <= MaxH(components) && components[c].vertical <= MaxV(components)
  {
    if components != [] {
      MaxAttained(components[..|components| - 1]);
    }
  }

  function SizesOf(f: Frame, c: nat): Sizes
    requires c < |f.components|
  {
    Sizes(MaxH(f.components), MaxV(f.components), f.components[c].horizontal, f.components[c].vertical)
  }

  lemma SizesValid(f: Frame, c: nat)
    requires ValidFrame(f) && c < |f.components|
    ensures var sizes := SizesOf(f, c);
            Factor(sizes.h, sizes.maxH) && Factor(sizes.v, sizes.maxV) && SmallFactor(sizes.maxH)
              && SmallFactor(sizes.maxV)
  {
    MaxFactors(f.components);
  }

  function Columns(f: Frame): nat
    requires ValidFrame(f)
  {
    MaxFactors(f.components);
    CeilDiv(f.image.width, 8 * MaxH(f.components))
  }

  function Rows(f: Frame): nat
    requires ValidFrame(f)
  {
    MaxFactors(f.components);
    CeilDiv(f.image.height, 8 * MaxV(f.components))
  }

  // ---------------------------------------------------------------- units, MCUs, the scan

  /** The quantised block of a component at a place. */
  function UnitAt(f: Frame, c: nat, at: Place): Unit
    requires ValidFrame(f) && c < |f.components| && ValidPlace(at, SizesOf(f, c))
  {
    var samples := BlockAt(f.image.planes[c], f.image.width, f.image.height, SizesOf(f, c), at);
    Unit(c, Quantized(Transform(samples), f.qTables[f.components[c].quantTable]))
  }

  /** Block k of a component in an MCU: from left to right, then from top to bottom. */
  function PlaceOf(h: nat, mcuX: nat, mcuY: nat, k: nat): Place
    requires h > 0
  {
    Place(mcuX, mcuY, k % h, k / h)
  }

  lemma PlaceValid(f: Frame, c: nat, mcuX: nat, mcuY: nat, k: nat)
    requires ValidFrame(f) && c < |f.components|
    ensures f.components[c].horizontal > 0 && f.components[c].vertical > 0
    ensures k < f.components[c].horizontal * f.components[c].vertical ==>
              ValidPlace(PlaceOf(f.components[c].horizontal, mcuX, mcuY, k), SizesOf(f, c))
  {
    SizesValid(f, c);
    assert SmallFactor(f.components[c].horizontal) && SmallFactor(f.components[c].vertical);
  }

  function ComponentUnits(f: Frame, c: nat, mcuX: nat, mcuY: nat): (r: seq<Unit>)
    requires ValidFrame(f) && c < |f.components|
    ensures |r| == f.components[c].horizontal * f.components[c].vertical
  {
    var h, v := f.components[c].horizontal, f.components[c].vertical;
    seq(h * v, k requires 0 <= k < h * v => PlaceValid(f, c, mcuX, mcuY, k); UnitAt(f, c, PlaceOf(h, mcuX, mcuY, k)))
  }

  /** The units of the first `count` components of an MCU. */
  function McuUnits(f: Frame, count: nat, mcuX: nat, mcuY: nat): seq<Unit>
    requires ValidFrame(f) && count <= |f.components|
  {
    if count == 0 then [] else McuUnits(f, count - 1, mcuX, mcuY) + ComponentUnits(f, count - 1, mcuX, mcuY)
  }

  /** MCU m of the scan: from left to right, then from top to bottom (section A.2.3 of T.81). */
  function Mcu(f: Frame, m: nat): seq<Unit>
    requires ValidFrame(f) && Columns(f) > 0
  {
    McuUnits(f, |f.components|, m % Columns(f), m / Columns(f))
  }

  lemma SomeColumns(f: Frame)
    requires ValidFrame(f)
    ensures Columns(f) > 0 && Rows(f) > 0
    ensures f.image.width <= Columns(f) * (8 * MaxH(f.components))
  {
    MaxFactors(f.components);
    CeilDivLeast(f.image.width, 8 * MaxH(f.components));
    CeilDivLeast(f.image.height, 8 * MaxV(f.components));
  }

  /** The first `count` MCUs of the scan. */
  function McusTo(f: Frame, count: nat): (r: seq<seq<Unit>>)
    requires ValidFrame(f)
    ensures |r| == count
  {
    SomeColumns(f);
    seq(count, m requires 0 <= m < count => Mcu(f, m))
  }

  function Mcus(f: Frame): seq<seq<Unit>>
    requires ValidFrame(f)
  {
    McusTo(f, Columns(f) * Rows(f))
  }

  // ---------------------------------------------------------------- the scan order

  /** The scan order that the frame header tells a decoder: sides and sampling factors give the MCUs. */
  function HeaderOrder(width: nat, height: nat, components: seq<Component>): seq<seq<nat>>
  {
    ScanOrder(components, CeilDiv(width, 8 * MaxH(components)) * CeilDiv(height, 8 * MaxV(components)))
  }

  lemma {:induction false} OrderAt(units: seq<Unit>, k: nat)
    requires k < |units|
    ensures Order(units)[k] == units[k].component
  {
    if k > 0 {
      OrderAt(units[1..], k - 1);
    }
  }

  lemma {:induction false} OrderConcat(a: seq<Unit>, b: seq<Unit>)
    ensures Order(a + b) == Order(a) + Order(b)
  {
    if a == [] {
      assert a + b == b;
    } else {
      OrderConcat(a[1..], b);
      ConcatTail(a, b);
    }
  }

  lemma ComponentOrder(f: Frame, c: nat, mcuX: nat, mcuY: nat)
    requires ValidFrame(f) && c < |f.components|
    ensures Order(ComponentUnits(f, c, mcuX, mcuY))
         == seq(f.components[c].horizontal * f.components[c].vertical, _ => c)
  {
    var units := ComponentUnits(f, c, mcuX, mcuY);
    forall k | 0 <= k < |units| ensures Order(units)[k] == c {
      OrderAt(units, k);
      PlaceValid(f, c, mcuX, mcuY, k);
    }
  }

  lemma {:induction false} McuUnitsOrder(f: Frame, count: nat, mcuX: nat, mcuY: nat)
    requires ValidFrame(f) && count <= |f.components|
    ensures Order(McuUnits(f, count, mcuX, mcuY)) == McuOrder(f.components, count)
  {
    if count > 0 {
      McuUnitsOrder(f, count - 1, mcuX, mcuY);
      ComponentOrder(f, count - 1, mcuX, mcuY);
      OrderConcat(McuUnits(f, count - 1, mcuX, mcuY), ComponentUnits(f, count - 1, mcuX, mcuY));
    }
  }

  lemma {:induction false} OrdersAt(mcus: seq<seq<Unit>>, m: nat)
    requires m < |mcus|
    ensures Orders(mcus)[m] == Order(mcus[m])
  {
    if m > 0 {
      OrdersAt(mcus[1..], m - 1);
    }
  }

  lemma {:induction false} OrderFlatten(mcus: seq<seq<Unit>>)
    ensures Order(Flatten(mcus)) == Flatten(Orders(mcus))
  {
    if mcus != [] {
      OrderFlatten(mcus[1..]);
      OrderConcat(mcus[0], Flatten(mcus[1..]));
    }
  }

  lemma OrdersAlike(mcus: seq<seq<Unit>>, order: seq<nat>)
    requires forall m :: 0 <= m < |mcus| ==> Order(mcus[m]) == order
    ensures Orders(mcus) == seq(|mcus|, _ => order)
  {
    forall m | 0 <= m < |mcus| ensures Orders(mcus)[m] == order {
      OrdersAt(mcus, m);
    }
  }

  lemma McuOrderIs(f: Frame, m: nat)
    requires ValidFrame(f) && Columns(f) > 0
    ensures Order(Mcu(f, m)) == McuOrder(f.components, |f.components|)
  {
    McuUnitsOrder(f, |f.components|, m % Columns(f), m / Columns(f));
  }

  lemma McusOrder(f: Frame)
    requires ValidFrame(f)
    ensures forall m :: 0 <= m < |Mcus(f)| ==> Order(Mcus(f)[m]) == McuOrder(f.components, |f.components|)
  {
    SomeColumns(f);
    var mcus := Mcus(f);
    forall m | 0 <= m < |mcus| ensures Order(mcus[m]) == McuOrder(f.components, |f.components|) {
      McuOrderIs(f, m);
    }
  }

  /** The blocks of the encoder come in the order that the frame header tells. */
  lemma OrderIsHeaders(f: Frame)
    requires ValidFrame(f)
    ensures Orders(Mcus(f)) == HeaderOrder(f.image.width, f.image.height, f.components)
    ensures Order(Flatten(Mcus(f))) == Flatten(HeaderOrder(f.image.width, f.image.height, f.components))
  {
    McusOrder(f);
    OrdersAlike(Mcus(f), McuOrder(f.components, |f.components|));
    OrderFlatten(Mcus(f));
  }

  // ---------------------------------------------------------------- where each block is, and what it decodes to

  function BlocksPerMcu(components: seq<Component>, count: nat): nat
    requires count <= |components|
  {
    if count == 0 then 0
    else BlocksPerMcu(components, count - 1) + components[count - 1].horizontal * components[count - 1].vertical
  }

  lemma {:induction false} McuSize(f: Frame, count: nat, mcuX: nat, mcuY: nat)
    requires ValidFrame(f) && count <= |f.components|
    ensures |McuUnits(f, count, mcuX, mcuY)| == BlocksPerMcu(f.components, count)
  {
    if count > 0 {
      McuSize(f, count - 1, mcuX, mcuY);
    }
  }

  lemma McuSizeAt(f: Frame, m: nat)
    requires ValidFrame(f) && Columns(f) > 0
    ensures |Mcu(f, m)| == BlocksPerMcu(f.components, |f.components|)
  {
    McuSize(f, |f.components|, m % Columns(f), m / Columns(f));
  }

  /** What a decoder multiplies out of a block is within one step of the transform, at every place. */
  lemma DecodedWithin(samples: seq<int>, table: QuantTable, z: nat)
    requires Samples(samples) && z < 64
    ensures var block := Transform(samples);
            var back: int := Unzigzag(Quantized(block, table))[z] * table[z];
            back <= block[z] + table[z] && block[z] <= back + table[z]
  {
    UnzigzagQuantized(Transform(samples), table, z);
    DequantizedWithin(Transform(samples)[z], table[z]);
  }

  /** The number of a column of a row, counted through all rows. */
  function Nth(row: nat, width: nat, column: nat): nat
  {
    row * width + column
  }

  /** The number of a block in the scan: its MCU, then its component, then its place in the MCU. */
  function BlockNumber(f: Frame, c: nat, mcuX: nat, mcuY: nat, k: nat): nat
    requires ValidFrame(f) && c < |f.components|
  {
    Nth(Nth(mcuY, Columns(f), mcuX), BlocksPerMcu(f.components, |f.components|), BlocksPerMcu(f.components, c) + k)
  }

  /** A sample of a plane with its last row and column repeated, level-shifted. */
  function PlaneSample(f: Frame, c: nat, x: nat, y: nat): (v: int)
    requires ValidFrame(f) && c < |f.components|
    ensures -128 <= v <= 127
  {
    f.image.planes[c][Min(y, f.image.height - 1)][Min(x, f.image.width - 1)] as int - 128
  }

  function Stride(max: nat, factor: nat): nat
    requires factor > 0
  {
    max / factor
  }

  /** Sample (x, y) of a component: that of the plane at the position which the component's share of the largest
      factors leaves. */
  function SampleOf(f: Frame, c: nat, x: nat, y: nat): (v: int)
    requires ValidFrame(f) && c < |f.components|
    ensures -128 <= v <= 127
  {
    PlaceValid(f, c, 0, 0, 0);
    var strideX := Stride(MaxH(f.components), f.components[c].horizontal);
    var strideY := Stride(MaxV(f.components), f.components[c].vertical);
    PlaneSample(f, c, x * strideX, y * strideY)
  }

  /** The samples of block (column, line) of a component. */
  function SamplesOf(f: Frame, c: nat, column: nat, line: nat): (r: seq<int>)
    requires ValidFrame(f) && c < |f.components|
    ensures Samples(r)
  {
    seq(64, i requires 0 <= i < 64 => SampleOf(f, c, 8 * column + i % 8, 8 * line + i / 8))
  }

  /** The samples of block k of a component in an MCU. */
  function PlaneSamples(f: Frame, c: nat, mcuX: nat, mcuY: nat, k: nat): (r: seq<int>)
    requires ValidFrame(f) && c < |f.components|
    ensures Samples(r)
  {
    PlaceValid(f, c, mcuX, mcuY, k);
    var h, v := f.components[c].horizontal, f.components[c].vertical;
    SamplesOf(f, c, Nth(mcuX, h, k % h), Nth(mcuY, v, k / h))
  }

  /** A decoder that takes the values of a block out of zigzag order and multiplies each by its entry is within
      one step of the transform of the samples. */
  ghost predicate DecodesTo(block: seq<int>, table: QuantTable, samples: seq<int>)
    requires Samples(samples)
  {
    && |block| == 64
    && forall z :: 0 <= z < 64 ==> StepNear(block[ZigzagIndex(z)] * table[z], Transform(samples)[z], table[z])
  }

  predicate StepNear(back: int, value: int, step: nat)
  {
    back <= value + step && value <= back + step
  }

  /** Block k of a component in an MCU, from left to right and then from top to bottom, is where it should be,
      and decodes with the table of its component to the transform of its samples. */
  ghost predicate BlockDecodes(f: Frame, blocks: seq<DecodedUnit>, c: nat, mcuX: nat, mcuY: nat, k: nat)
    requires ValidFrame(f) && c < |f.components|
  {
    var i := BlockNumber(f, c, mcuX, mcuY, k);
    && i < |blocks| && blocks[i].component == c
    && DecodesTo(blocks[i].block, f.qTables[f.components[c].quantTable], PlaneSamples(f, c, mcuX, mcuY, k))
  }

  /** The blocks are those of the image: nothing but one for every block of every component in every MCU. */
  ghost predicate DecodesImage(f: Frame, blocks: seq<DecodedUnit>)
    requires ValidFrame(f)
  {
    && |blocks| == (Columns(f) * Rows(f)) * BlocksPerMcu(f.components, |f.components|)
    && forall c: nat, mcuX: nat, mcuY: nat, k: nat ::
         c < |f.components| && mcuX < Columns(f) && mcuY < Rows(f)
         && k < f.components[c].horizontal * f.components[c].vertical ==>
           BlockDecodes(f, blocks, c, mcuX, mcuY, k)
  }

  lemma {:induction false} AllDecodedAt(units: seq<Unit>, i: nat)
    requires i < |units|
    ensures AllDecoded(units)[i].component == units[i].component && AllDecoded(units)[i].block == units[i].block
  {
    if i > 0 {
      AllDecodedAt(units[1..], i - 1);
    }
  }

  lemma {:induction false} InMcu(f: Frame, count: nat, c: nat, mcuX: nat, mcuY: nat, k: nat)
    requires ValidFrame(f) && c < count <= |f.components| && k < |ComponentUnits(f, c, mcuX, mcuY)|
    ensures BlocksPerMcu(f.components, c) + k < |McuUnits(f, count, mcuX, mcuY)|
    ensures McuUnits(f, count, mcuX, mcuY)[BlocksPerMcu(f.components, c) + k] == ComponentUnits(f, c, mcuX, mcuY)[k]
    decreases count
  {
    McuSize(f, count - 1, mcuX, mcuY);
    if c < count - 1 {
      InMcu(f, count - 1, c, mcuX, mcuY, k);
    }
  }

  lemma SamplesAre(f: Frame, c: nat, mcuX: nat, mcuY: nat, k: nat, at: Place)
    requires ValidFrame(f) && c < |f.components| && k < f.components[c].horizontal * f.components[c].vertical
    requires f.components[c].horizontal > 0 && at == PlaceOf(f.components[c].horizontal, mcuX, mcuY, k)
    requires ValidPlace(at, SizesOf(f, c))
    ensures PlaneSamples(f, c, mcuX, mcuY, k)
         == BlockAt(f.image.planes[c], f.image.width, f.image.height, SizesOf(f, c), at)
  {
  }

  lemma UnitDecodes(f: Frame, c: nat, mcuX: nat, mcuY: nat, k: nat, block: seq<int>)
    requires ValidFrame(f) && c < |f.components| && k < |ComponentUnits(f, c, mcuX, mcuY)|
    requires block == ComponentUnits(f, c, mcuX, mcuY)[k].block
    ensures ComponentUnits(f, c, mcuX, mcuY)[k].component == c
    ensures DecodesTo(block, f.qTables[f.components[c].quantTable], PlaneSamples(f, c, mcuX, mcuY, k))
  {
    PlaceValid(f, c, mcuX, mcuY, k);
    var at := PlaceOf(f.components[c].horizontal, mcuX, mcuY, k);
    ComponentUnitAt(f, c, mcuX, mcuY, k, at);
    SamplesAre(f, c, mcuX, mcuY, k, at);
    QuantizedDecodes(PlaneSamples(f, c, mcuX, mcuY, k), f.qTables[f.components[c].quantTable], block);
  }

  lemma QuantizedDecodes(samples: seq<int>, table: QuantTable, block: seq<int>)
    requires Samples(samples) && block == Quantized(Transform(samples), table)
    ensures DecodesTo(block, table, samples)
  {
    forall z | 0 <= z < 64 ensures StepNear(block[ZigzagIndex(z)] * table[z], Transform(samples)[z], table[z]) {
      DecodedWithin(samples, table, z);
      UnzigzagIs(Quantized(Transform(samples), table), z);
    }
  }

  lemma McuAt(f: Frame, mcuX: nat, mcuY: nat, m: nat)
    requires ValidFrame(f) && mcuX < Columns(f) && mcuY < Rows(f) && m == mcuY * Columns(f) + mcuX
    ensures m < |Mcus(f)| && Mcus(f)[m] == McuUnits(f, |f.components|, mcuX, mcuY)
  {
    DivModUnique(m, Columns(f), mcuY, mcuX);
    InsideRow(mcuY, Rows(f), mcuX, Columns(f));
    SameProduct(Rows(f), Columns(f));
  }

  lemma McuSizes(f: Frame)
    requires ValidFrame(f)
    ensures forall m :: 0 <= m < |Mcus(f)| ==> |Mcus(f)[m]| == BlocksPerMcu(f.components, |f.components|)
  {
    SomeColumns(f);
    forall m | 0 <= m < |Mcus(f)| ensures |Mcus(f)[m]| == BlocksPerMcu(f.components, |f.components|) {
      McuSizeAt(f, m);
    }
  }

  /** The number of blocks of the scan. */
  lemma ScanSize(f: Frame)
    requires ValidFrame(f)
    ensures |Flatten(Mcus(f))| == (Columns(f) * Rows(f)) * BlocksPerMcu(f.components, |f.components|)
  {
    McuSizes(f);
    FlattenSize(Mcus(f), BlocksPerMcu(f.components, |f.components|));
  }

  lemma BlockInScan(f: Frame, c: nat, mcuX: nat, mcuY: nat, k: nat)
    requires ValidFrame(f) && c < |f.components| && k < |ComponentUnits(f, c, mcuX, mcuY)|
    requires mcuX < Columns(f) && mcuY < Rows(f)
    ensures BlockNumber(f, c, mcuX, mcuY, k) < |Flatten(Mcus(f))|
    ensures Flatten(Mcus(f))[BlockNumber(f, c, mcuX, mcuY, k)] == ComponentUnits(f, c, mcuX, mcuY)[k]
  {
    var m := Nth(mcuY, Columns(f), mcuX);
    McuSizes(f);
    McuAt(f, mcuX, mcuY, m);
    InMcu(f, |f.components|, c, mcuX, mcuY, k);
    FlattenAt(Mcus(f), BlocksPerMcu(f.components, |f.components|), m, BlocksPerMcu(f.components, c) + k);
  }

  /** The blocks of the scan are those of the image. */
  lemma ScanDecodes(f: Frame)
    requires ValidFrame(f)
    ensures DecodesImage(f, AllDecoded(Flatten(Mcus(f))))
  {
    ScanSize(f);
    var units := Flatten(Mcus(f));
    forall c: nat, mcuX: nat, mcuY: nat, k: nat | c < |f.components| && mcuX < Columns(f) && mcuY < Rows(f)
        && k < f.components[c].horizontal * f.components[c].vertical
      ensures BlockDecodes(f, AllDecoded(units), c, mcuX, mcuY, k)
    {
      var i := BlockNumber(f, c, mcuX, mcuY, k);
      BlockInScan(f, c, mcuX, mcuY, k);
      AllDecodedAt(units, i);
      UnitDecodes(f, c, mcuX, mcuY, k, units[i].block);
    }
  }

  // ---------------------------------------------------------------- collecting the blocks

  /** Samples, transform and quantiser for one block. */
  method EncodeBlock(f: Frame, row: seq<byte>, c: nat, at: Place, mcus: nat) returns (u: Unit)
    requires ValidFrame(f) && c < |f.components| && ValidPlace(at, SizesOf(f, c)) && at.mcuX < mcus
    requires IsRowBuffer(row, f.image.planes[c], f.image.width, f.image.height, at.mcuY * (8 * MaxV(f.components)),
                         mcus * (8 * MaxH(f.components)), 8 * MaxV(f.components))
    ensures u == UnitAt(f, c, at)
  {
    var block := ReadBlock(row, f.image.planes[c], f.image.width, f.image.height, mcus, SizesOf(f, c), at);
    var data := new int16[64](i requires 0 <= i < 64 => block[i]);
    assert data[..] == block;
    Fdct(data);
    var qBlock := QuantizeBlock(data[..], f.qTables[f.components[c].quantTable]);
    u := Unit(c, qBlock);
  }

  /** The row buffers of one row of MCUs, one a component. */
  ghost predicate RowsReady(f: Frame, rows: seq<seq<byte>>, mcuY: nat)
    requires ValidFrame(f)
  {
    && |rows| == |f.components|
    && forall c :: 0 <= c < |rows| ==> RowReady(f, rows[c], c, mcuY)
  }

  ghost predicate RowReady(f: Frame, row: seq<byte>, c: nat, mcuY: nat)
    requires ValidFrame(f) && c < |f.components|
  {
    IsRowBuffer(row, f.image.planes[c], f.image.width, f.image.height, mcuY * (8 * MaxV(f.components)),
                Columns(f) * (8 * MaxH(f.components)), 8 * MaxV(f.components))
  }

  method FillRows(f: Frame, mcuY: nat) returns (rows: seq<seq<byte>>)
    requires ValidFrame(f)
    ensures RowsReady(f, rows, mcuY)
  {
    SomeColumns(f);
    var maxH, maxV := GetMaxSamplingSize(f.components);
    rows := [];
    for c := 0 to |f.components|
      invariant |rows| == c && forall k :: 0 <= k < c ==> RowReady(f, rows[k], k, mcuY)
    {
      var row := FillRow(f.image.planes[c], f.image.width, f.image.height, mcuY, 8 * maxV, Columns(f) * (8 * maxH));
      rows := rows + [row];
    }
  }

  lemma IndexOfPlace(width: nat, height: nat, v: nat, h: nat)
    requires h < width && v < height
    ensures v * width + h < width * height
    ensures (v * width + h) / width == v && (v * width + h) % width == h
  {
    DivModUnique(v * width + h, width, v, h);
    InsideRow(v, height, h, width);
  }

  lemma ComponentUnitAt(f: Frame, c: nat, mcuX: nat, mcuY: nat, k: nat, at: Place)
    requires ValidFrame(f) && c < |f.components| && k < |ComponentUnits(f, c, mcuX, mcuY)|
    requires f.components[c].horizontal > 0 && at == PlaceOf(f.components[c].horizontal, mcuX, mcuY, k)
    ensures ValidPlace(at, SizesOf(f, c)) && ComponentUnits(f, c, mcuX, mcuY)[k] == UnitAt(f, c, at)
  {
    PlaceValid(f, c, mcuX, mcuY, k);
  }

  lemma UnitAtNext(f: Frame, c: nat, mcuX: nat, mcuY: nat, v: nat, h: nat, k: nat)
    requires ValidFrame(f) && c < |f.components| && h < f.components[c].horizontal && v < f.components[c].vertical
    requires k == v * f.components[c].horizontal + h
    ensures k < |ComponentUnits(f, c, mcuX, mcuY)| && ValidPlace(Place(mcuX, mcuY, h, v), SizesOf(f, c))
    ensures ComponentUnits(f, c, mcuX, mcuY)[k] == UnitAt(f, c, Place(mcuX, mcuY, h, v))
  {
    IndexOfPlace(f.components[c].horizontal, f.components[c].vertical, v, h);
    ComponentUnitAt(f, c, mcuX, mcuY, k, Place(mcuX, mcuY, h, v));
  }

  /** The blocks of one component in one MCU. */
  method CollectComponent(f: Frame, row: seq<byte>, c: nat, mcuX: nat, mcuY: nat) returns (units: seq<Unit>)
    requires ValidFrame(f) && c < |f.components| && RowReady(f, row, c, mcuY) && mcuX < Columns(f)
    ensures units == ComponentUnits(f, c, mcuX, mcuY)
  {
    var horizontal, vertical := f.components[c].horizontal, f.components[c].vertical;
    ghost var all := ComponentUnits(f, c, mcuX, mcuY);
    units := [];
    for v := 0 to vertical
      invariant |units| == v * horizontal <= |all| && units == all[..|units|]
    {
      for h := 0 to horizontal
        invariant |units| == v * horizontal + h <= |all| && units == all[..|units|]
      {
        UnitAtNext(f, c, mcuX, mcuY, v, h, |units|);
        var u := EncodeBlock(f, row, c, Place(mcuX, mcuY, h, v), Columns(f));
        units := units + [u];
      }
    }
  }

  /** The blocks of one MCU. */
  method CollectMcu(f: Frame, rows: seq<seq<byte>>, mcuX: nat, mcuY: nat) returns (units: seq<Unit>)
    requires ValidFrame(f) && RowsReady(f, rows, mcuY) && mcuX < Columns(f)
    ensures units == McuUnits(f, |f.components|, mcuX, mcuY)
  {
    units := [];
    for c := 0 to |f.components|
      invariant units == McuUnits(f, c, mcuX, mcuY)
    {
      var more := CollectComponent(f, rows[c], c, mcuX, mcuY);
      units := units + more;
    }
  }

  /** The units of the first `count` MCUs. */
  function UnitsTo(f: Frame, count: nat): seq<Unit>
    requires ValidFrame(f)
  {
    Flatten(McusTo(f, count))
  }

  lemma NextInScan(f: Frame, mcuX: nat, mcuY: nat)
    requires ValidFrame(f) && mcuX < Columns(f)
    ensures UnitsTo(f, mcuY * Columns(f) + (mcuX + 1))
         == UnitsTo(f, mcuY * Columns(f) + mcuX) + McuUnits(f, |f.components|, mcuX, mcuY)
  {
    var m := mcuY * Columns(f) + mcuX;
    DivModUnique(m, Columns(f), mcuY, mcuX);
    assert McusTo(f, m + 1) == McusTo(f, m) + [Mcu(f, m)];
    FlattenAppend(McusTo(f, m), Mcu(f, m));
  }

  /** The blocks of one row of MCUs, behind those of the rows above. */
  method CollectRow(f: Frame, mcuY: nat, above: seq<Unit>) returns (blocks: seq<Unit>)
    requires ValidFrame(f) && above == UnitsTo(f, mcuY * Columns(f))
    ensures blocks == UnitsTo(f, (mcuY + 1) * Columns(f))
  {
    var rows := FillRows(f, mcuY);
    blocks := above;
    for mcuX := 0 to Columns(f)
      invariant blocks == UnitsTo(f, mcuY * Columns(f) + mcuX)
    {
      NextInScan(f, mcuX, mcuY);
      var units := CollectMcu(f, rows, mcuX, mcuY);
      blocks := blocks + units;
    }
    MulDistributes(mcuY, 1, Columns(f));
  }

  /** Pass 1: every block of the image, transformed and quantised, in scan order. */
  method CollectBlocks(f: Frame) returns (blocks: seq<Unit>)
    requires ValidFrame(f)
    ensures blocks == Flatten(Mcus(f)) && DecodesImage(f, AllDecoded(blocks))
  {
    blocks := [];
    for mcuY := 0 to Rows(f)
      invariant blocks == UnitsTo(f, mcuY * Columns(f))
    {
      blocks := CollectRow(f, mcuY, blocks);
    }
    SameProduct(Rows(f), Columns(f));
    ScanDecodes(f);
  }

  lemma SameProduct(a: nat, b: nat)
    ensures a * b == b * a
  {
  }
}

/** From image rows to blocks: the padded row buffer, and the samples a block reads from it. */
module Sampling {
  import opened Bits

  /** One colour plane, row by row. */
  type Plane = seq<seq<byte>>

  datatype Image = Image(width: nat, height: nat, planes: seq<Plane>)

  predicate ValidPlane(plane: Plane, width: nat, height: nat)
  {
    |plane| == height && forall y :: 0 <= y < height ==> |plane[y]| == width
  }

  predicate ValidImage(image: Image)
  {
    && 0 < image.width < 0x1_0000 && 0 < image.height < 0x1_0000
    && forall c :: 0 <= c < |image.planes| ==> ValidPlane(image.planes[c], image.width, image.height)
  }

  function CeilDiv(value: nat, div: nat): nat
    requires div > 0
  {
    value / div + if value % div != 0 then 1 else 0
  }

  /** ceil_div is the least number of `div`s that hold the value. */
  lemma CeilDivLeast(value: nat, div: nat)
    requires div > 0
    ensures CeilDiv(value, div) * div >= value
    ensures forall n: nat :: n * div >= value ==> n >= CeilDiv(value, div)
  {
    var q, m := Quotient(value, div);
    MulDistributes(q, 1, div);
    forall n: nat | n * div >= value ensures n >= CeilDiv(value, div) {
      if n < q {
        MulDiff(n, q, div);
      }
    }
  }

  /** The sample at a position, the last row and column repeated beyond the edges. */
  function Clamped(plane: Plane, width: nat, height: nat, x: nat, y: nat): byte
    requires ValidPlane(plane, width, height) && width > 0 && height > 0
  {
    plane[Min(y, height - 1)][Min(x, width - 1)]
  }

  // ---------------------------------------------------------------- the row buffer

  /** The buffer of one row of MCUs: `lines` image lines, each padded to the buffer's width. */
  ghost predicate IsRowBuffer(row: seq<byte>, plane: Plane, width: nat, height: nat, firstLine: nat, bufferWidth: nat,
                              lines: nat)
    requires ValidPlane(plane, width, height) && width > 0 && height > 0
  {
    && |row| == lines * bufferWidth
    && forall y, x :: 0 <= y < lines && 0 <= x < bufferWidth ==>
         At(row, bufferWidth, y, x) == Clamped(plane, width, height, x, firstLine + y)
  }

  /** The buffer's sample at a line and a column. */
  function At(row: seq<byte>, bufferWidth: nat, y: nat, x: nat): byte
  {
    var i := y * bufferWidth + x;
    if i < |row| then row[i] else 0
  }

  /** One image line, padded with its last sample. */
  method PaddedLine(line: seq<byte>, bufferWidth: nat) returns (padded: seq<byte>)
    requires 0 < |line| <= bufferWidth
    ensures |padded| == bufferWidth && forall x :: 0 <= x < bufferWidth ==> padded[x] == line[Min(x, |line| - 1)]
  {
    padded := line;
    for n := |line| to bufferWidth
      invariant |padded| == n && forall x :: 0 <= x < n ==> padded[x] == line[Min(x, |line| - 1)]
    {
      padded := padded + [padded[|padded| - 1]];
    }
  }

  lemma AppendLine(row: seq<byte>, line: seq<byte>, bufferWidth: nat, lines: nat)
    requires |row| == lines * bufferWidth && |line| == bufferWidth
    ensures |row + line| == (lines + 1) * bufferWidth
    ensures forall x :: 0 <= x < bufferWidth ==> At(row + line, bufferWidth, lines, x) == line[x]
    ensures forall y, x :: 0 <= y < lines && 0 <= x < bufferWidth ==>
              At(row + line, bufferWidth, y, x) == At(row, bufferWidth, y, x)
  {
    MulDistributes(lines, 1, bufferWidth);
    forall y, x | 0 <= y < lines && 0 <= x < bufferWidth
      ensures At(row + line, bufferWidth, y, x) == At(row, bufferWidth, y, x)
    {
      MulDiff(y, lines, bufferWidth);
    }
  }

  /** The lines of one row of MCUs of one channel, the last line repeated below the image. */
  method FillRow(plane: Plane, width: nat, height: nat, blockY: nat, lines: nat, bufferWidth: nat)
    returns (row: seq<byte>)
    requires ValidPlane(plane, width, height) && 0 < width <= bufferWidth && 0 < height
    ensures IsRowBuffer(row, plane, width, height, blockY * lines, bufferWidth, lines)
  {
    row := [];
    for y := 0 to lines
      invariant IsRowBuffer(row, plane, width, height, blockY * lines, bufferWidth, y)
    {
      var line := PaddedLine(plane[Min(y + blockY * lines, height - 1)], bufferWidth);
      AppendLine(row, line, bufferWidth, y);
      row := row + line;
    }
  }

  // ---------------------------------------------------------------- blocks

  /** The index get_block reads for line y and column x of a block. */
  function Index(startX: nat, startY: nat, colStride: nat, rowStride: nat, width: nat, y: nat, x: nat): nat
  {
    (startY + y * rowStride) * width + (startX + x * colStride)
  }

  /** get_block: every index it computes must be inside the data. */
  method GetBlock(data: seq<byte>, startX: nat, startY: nat, colStride: nat, rowStride: nat, width: nat)
    returns (block: seq<int>)
    requires forall y, x :: 0 <= y < 8 && 0 <= x < 8 ==>
               Index(startX, startY, colStride, rowStride, width, y, x) < |data|
    ensures |block| == 64
    ensures forall i :: 0 <= i < 64 ==>
              block[i] == data[Index(startX, startY, colStride, rowStride, width, i / 8, i % 8)] as int - 128
  {
    block := [];
    for y := 0 to 8
      invariant |block| == 8 * y
      invariant forall i :: 0 <= i < 8 * y ==>
                  block[i] == data[Index(startX, startY, colStride, rowStride, width, i / 8, i % 8)] as int - 128
    {
      for x := 0 to 8
        invariant |block| == 8 * y + x
        invariant forall i :: 0 <= i < 8 * y + x ==>
                    block[i] == data[Index(startX, startY, colStride, rowStride, width, i / 8, i % 8)] as int - 128
      {
        block := block + [data[Index(startX, startY, colStride, rowStride, width, y, x)] as int - 128];
      }
    }
  }

  /** Sample (x, y) of a component subsampled by the two strides: the image's sample at the scaled
      position, level-shifted. */
  function ComponentSample(plane: Plane, width: nat, height: nat, colStride: nat, rowStride: nat, x: nat, y: nat): int
    requires ValidPlane(plane, width, height) && width > 0 && height > 0
  {
    Clamped(plane, width, height, x * colStride, y * rowStride) as int - 128
  }

  /** Block (column, line) of a component. */
  function ComponentBlock(plane: Plane, width: nat, height: nat, colStride: nat, rowStride: nat, column: nat,
                          line: nat): (r: seq<int>)
    requires ValidPlane(plane, width, height) && width > 0 && height > 0
    ensures |r| == 64 && forall i :: 0 <= i < 64 ==> -128 <= r[i] <= 127
  {
    seq(64, i requires 0 <= i < 64 =>
      ComponentSample(plane, width, height, colStride, rowStride, 8 * column + i % 8, 8 * line + i / 8))
  }

  /** The position get_block reads, relative to the MCU, is the one that component subsampling asks
      for exactly if the component is not subsampled or has one block a row in the MCU. The factors 1
      and 2 always meet that; 4 with 2 does not. */
  lemma PositionExact(mcu: nat, factor: nat, stride: nat, offset: nat, k: nat)
    ensures mcu * (8 * (factor * stride)) + (8 * offset + k * stride) == (8 * (mcu * factor + offset) + k) * stride
       <==> offset == 0 || stride == 1
  {
    var a := 8 * (mcu * factor);
    MulDistributes(a + 8 * offset, k, stride);
    MulDistributes(a, 8 * offset, stride);
    MulAssoc(mcu, factor, stride);
    assert a * stride == 8 * ((mcu * factor) * stride);
    assert mcu * (8 * (factor * stride)) == 8 * (mcu * (factor * stride));
    if offset > 0 && stride != 1 {
      OtherStride(8 * offset, stride);
    }
  }

  lemma OtherStride(a: nat, stride: nat)
    requires a > 0 && stride != 1
    ensures a * stride != a
  {
    if stride > 1 {
      MulLess(1, stride, a);
    }
  }

  /** A sampling factor next to the largest one: the same, or 1. */
  predicate Factor(factor: nat, max: nat)
  {
    0 < factor <= max && (factor == 1 || factor == max)
  }

  lemma FactorStride(factor: nat, max: nat)
    requires Factor(factor, max)
    ensures factor * (max / factor) == max && (factor == 1 || max / factor == 1)
  {
    if factor == max {
      DivModUnique(max, factor, 1, 0);
    }
  }

  lemma Position(mcu: nat, max: nat, factor: nat, offset: nat, k: nat)
    requires Factor(factor, max) && offset < factor && k < 8
    ensures mcu * (8 * max) + (8 * offset + k * (max / factor)) == (8 * (mcu * factor + offset) + k) * (max / factor)
    ensures 8 * offset + k * (max / factor) < 8 * max
  {
    FactorStride(factor, max);
    PositionExact(mcu, factor, max / factor, offset, k);
    if factor == 1 {
      MulLess(k, 8, max);
    }
  }

  lemma InsideRow(y: nat, lines: nat, x: nat, bufferWidth: nat)
    requires y < lines && x < bufferWidth
    ensures y * bufferWidth + x < lines * bufferWidth
  {
    MulDiff(y, lines, bufferWidth);
  }

  lemma InsideBuffer(mcu: nat, mcus: nat, offset: nat, max: nat)
    requires mcu < mcus && offset < 8 * max
    ensures mcu * (8 * max) + offset < mcus * (8 * max)
  {
    MulDiff(mcu, mcus, 8 * max);
  }

  /** Where a block of a component lies in an image: its MCU and its offset inside the MCU. */
  datatype Place = Place(mcuX: nat, mcuY: nat, hOffset: nat, vOffset: nat)

  /** The sizes a component is sampled with. */
  datatype Sizes = Sizes(maxH: nat, maxV: nat, h: nat, v: nat)

  predicate ValidPlace(at: Place, sizes: Sizes)
  {
    Factor(sizes.h, sizes.maxH) && Factor(sizes.v, sizes.maxV) && at.hOffset < sizes.h && at.vOffset < sizes.v
  }

  lemma ReadSample(row: seq<byte>, plane: Plane, width: nat, height: nat, firstLine: nat, bufferWidth: nat, lines: nat,
                   column: nat, inLine: nat, i: nat)
    requires ValidPlane(plane, width, height) && width > 0 && height > 0
    requires IsRowBuffer(row, plane, width, height, firstLine, bufferWidth, lines)
    requires column < bufferWidth && inLine < lines && i == inLine * bufferWidth + column
    ensures i < |row| && row[i] == Clamped(plane, width, height, column, firstLine + inLine)
  {
    InsideRow(inLine, lines, column, bufferWidth);
    assert At(row, bufferWidth, inLine, column) == Clamped(plane, width, height, column, firstLine + inLine);
  }

  /** Where a block starts in the buffer. */
  function Start(mcu: nat, max: nat, offset: nat): nat
  {
    mcu * (8 * max) + offset * 8
  }

  lemma Axis(mcu: nat, mcus: nat, max: nat, factor: nat, offset: nat, k: nat) returns (position: nat)
    requires Factor(factor, max) && offset < factor && k < 8 && mcu < mcus
    ensures position == Start(mcu, max, offset) + k * (max / factor)
    ensures position == (8 * (mcu * factor + offset) + k) * (max / factor)
    ensures position < mcus * (8 * max)
  {
    Position(mcu, max, factor, offset, k);
    InsideBuffer(mcu, mcus, 8 * offset + k * (max / factor), max);
    position := Start(mcu, max, offset) + k * (max / factor);
  }

  lemma ReadComponent(row: seq<byte>, plane: Plane, width: nat, height: nat, firstLine: nat, bufferWidth: nat,
                      lines: nat, column: nat, inLine: nat, i: nat, colStride: nat, rowStride: nat, x: nat, y: nat)
    requires ValidPlane(plane, width, height) && width > 0 && height > 0
    requires IsRowBuffer(row, plane, width, height, firstLine, bufferWidth, lines)
    requires column < bufferWidth && inLine < lines && i == inLine * bufferWidth + column
    requires column == x * colStride && firstLine + inLine == y * rowStride
    ensures i < |row| && row[i] as int - 128 == ComponentSample(plane, width, height, colStride, rowStride, x, y)
  {
    ReadSample(row, plane, width, height, firstLine, bufferWidth, lines, column, inLine, i);
  }

  lemma SampleInRow(row: seq<byte>, plane: Plane, width: nat, height: nat, mcus: nat, sizes: Sizes, at: Place, y: nat,
                    x: nat)
    requires ValidPlane(plane, width, height) && width > 0 && height > 0 && ValidPlace(at, sizes) && at.mcuX < mcus
    requires IsRowBuffer(row, plane, width, height, at.mcuY * (8 * sizes.maxV), mcus * (8 * sizes.maxH), 8 * sizes.maxV)
    requires y < 8 && x < 8
    ensures var i := PlaceIndex(mcus, sizes, at, y, x);
            && i < |row|
            && row[i] as int - 128
               == ComponentSample(plane, width, height, sizes.maxH / sizes.h, sizes.maxV / sizes.v,
                                  8 * (at.mcuX * sizes.h + at.hOffset) + x, 8 * (at.mcuY * sizes.v + at.vOffset) + y)
  {
    var column := Axis(at.mcuX, mcus, sizes.maxH, sizes.h, at.hOffset, x);
    var inLine := LineAxis(at.mcuY, sizes.maxV, sizes.v, at.vOffset, y);
    ReadComponent(row, plane, width, height, at.mcuY * (8 * sizes.maxV), mcus * (8 * sizes.maxH), 8 * sizes.maxV,
                  column, inLine, PlaceIndex(mcus, sizes, at, y, x), sizes.maxH / sizes.h, sizes.maxV / sizes.v,
                  8 * (at.mcuX * sizes.h + at.hOffset) + x, 8 * (at.mcuY * sizes.v + at.vOffset) + y);
  }

  lemma LineAxis(mcu: nat, max: nat, factor: nat, offset: nat, k: nat) returns (inLine: nat)
    requires Factor(factor, max) && offset < factor && k < 8
    ensures inLine == offset * 8 + k * (max / factor) && inLine < 8 * max
    ensures mcu * (8 * max) + inLine == (8 * (mcu * factor + offset) + k) * (max / factor)
  {
    Position(mcu, max, factor, offset, k);
    inLine := offset * 8 + k * (max / factor);
  }

  /** The index the scans make get_block read for a block at a place. */
  function PlaceIndex(mcus: nat, sizes: Sizes, at: Place, y: nat, x: nat): nat
    requires ValidPlace(at, sizes)
  {
    Index(Start(at.mcuX, sizes.maxH, at.hOffset), at.vOffset * 8, sizes.maxH / sizes.h, sizes.maxV / sizes.v,
          mcus * (8 * sizes.maxH), y, x)
  }

  /** The component's block at a place. */
  function BlockAt(plane: Plane, width: nat, height: nat, sizes: Sizes, at: Place): (r: seq<int>)
    requires ValidPlane(plane, width, height) && width > 0 && height > 0 && ValidPlace(at, sizes)
    ensures |r| == 64 && forall i :: 0 <= i < 64 ==> -128 <= r[i] <= 127
  {
    ComponentBlock(plane, width, height, sizes.maxH / sizes.h, sizes.maxV / sizes.v,
                   at.mcuX * sizes.h + at.hOffset, at.mcuY * sizes.v + at.vOffset)
  }

  /** Every index get_block reads for a block of the row of MCUs is inside the row buffer, and the
      block is that block of the subsampled component, the image's edges repeated (sections A.2.3 and
      A.2.4 of T.81). */
  lemma BlockInRow(row: seq<byte>, plane: Plane, width: nat, height: nat, mcus: nat, sizes: Sizes, at: Place)
    requires ValidPlane(plane, width, height) && width > 0 && height > 0 && ValidPlace(at, sizes) && at.mcuX < mcus
    requires IsRowBuffer(row, plane, width, height, at.mcuY * (8 * sizes.maxV), mcus * (8 * sizes.maxH), 8 * sizes.maxV)
    ensures forall y, x :: 0 <= y < 8 && 0 <= x < 8 ==> PlaceIndex(mcus, sizes, at, y, x) < |row|
    ensures forall i :: 0 <= i < 64 ==>
              row[PlaceIndex(mcus, sizes, at, i / 8, i % 8)] as int - 128 == BlockAt(plane, width, height, sizes, at)[i]
  {
    forall y, x | 0 <= y < 8 && 0 <= x < 8 ensures PlaceIndex(mcus, sizes, at, y, x) < |row| {
      SampleInRow(row, plane, width, height, mcus, sizes, at, y, x);
    }
    forall i | 0 <= i < 64
      ensures row[PlaceIndex(mcus, sizes, at, i / 8, i % 8)] as int - 128 == BlockAt(plane, width, height, sizes, at)[i]
    {
      SampleInRow(row, plane, width, height, mcus, sizes, at, i / 8, i % 8);
    }
  }

  /** get_block at a place, with the arguments the scans pass it. */
  method ReadBlock(row: seq<byte>, ghost plane: Plane, ghost width: nat, ghost height: nat, mcus: nat, sizes: Sizes,
                   at: Place)
    returns (block: seq<int>)
    requires ValidPlane(plane, width, height) && width > 0 && height > 0 && ValidPlace(at, sizes) && at.mcuX < mcus
    requires IsRowBuffer(row, plane, width, height, at.mcuY * (8 * sizes.maxV), mcus * (8 * sizes.maxH), 8 * sizes.maxV)
    ensures block == BlockAt(plane, width, height, sizes, at)
  {
    BlockInRow(row, plane, width, height, mcus, sizes, at);
    forall y, x | 0 <= y < 8 && 0 <= x < 8
      ensures Index(Start(at.mcuX, sizes.maxH, at.hOffset), at.vOffset * 8, sizes.maxH / sizes.h, sizes.maxV / sizes.v,
                    mcus * (8 * sizes.maxH), y, x) < |row|
    {
      assert PlaceIndex(mcus, sizes, at, y, x) < |row|;
    }
    block := GetBlock(row, Start(at.mcuX, sizes.maxH, at.hOffset), at.vOffset * 8,
                      sizes.maxH / sizes.h, sizes.maxV / sizes.v, mcus * (8 * sizes.maxH));
  }
}

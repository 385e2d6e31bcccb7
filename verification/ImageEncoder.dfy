/** Whole images: no block of an image is out of range, so both scans decode to exactly its quantised blocks. */
module ImageEncoding {
  import opened Bits
  import opened ByteStream
  import opened DefaultTables
  import opened EntropyCoding
  import opened ForwardDct
  import opened ImageScan
  import opened OptimizedTables
  import opened Quantization
  import opened Sampling
  import opened Scan
  import opened ScanCosts
  import opened ScanEncoder
  import opened Sequences
  import opened Tally
  import opened Zigzag

  // ---------------------------------------------------------------- the blocks of an image are small

  predicate SmallDc(v: int)
  {
    -1025 <= v <= 1017
  }

  predicate SmallUnit(u: Unit)
  {
    SmallDc(u.block[0]) && forall k :: 1 <= k < 64 ==> -1021 <= u.block[k] <= 1021
  }

  predicate AllSmall(units: seq<Unit>)
  {
    forall i :: 0 <= i < |units| ==> SmallUnit(units[i])
  }

  predicate SmallPreds(preds: Predictions)
  {
    forall c :: 0 <= c < 4 ==> SmallDc(preds[c])
  }

  lemma QuantizedDc(block: Block, table: QuantTable)
    requires -8192 <= block[0] <= 8128
    ensures SmallDc(Quantized(block, table)[0])
  {
    ZigzagEntry(0);
    QuantizeBound(block[0], table[0], -8192, 8128);
  }

  lemma QuantizedAc(block: Block, table: QuantTable, k: nat)
    requires 1 <= k < 64 && forall z :: 1 <= z < 64 ==> -8160 <= block[z] <= 8160
    ensures -1021 <= Quantized(block, table)[k] <= 1021
  {
    ZigzagEntry(k);
    var z := ZigzagAt(k);
    QuantizeBound(block[z], table[z], -8160, 8160);
  }

  /** At any quality, and with any user table, the quantised DC value of any samples is within
      -1025..1017 and every other value within 1021. */
  lemma QuantizedSmall(c: ComponentIndex, samples: seq<int>, table: QuantTable)
    requires Samples(samples)
    ensures SmallUnit(Unit(c, Quantized(Transform(samples), table)))
  {
    TransformBounds(samples);
    var block := Transform(samples);
    QuantizedDc(block, table);
    forall k | 1 <= k < 64 ensures -1021 <= Quantized(block, table)[k] <= 1021 {
      QuantizedAc(block, table, k);
    }
  }

  /** 60 samples of 64 and 4 of 63. */
  function WitnessBlock(): seq<int>
  {
    seq(64, (i: nat) => if i < 60 then 64 else 63)
  }

  lemma WitnessRow(y: nat)
    requires y < 8
    ensures Samples(WitnessBlock()) && Sum8(Row(WitnessBlock(), y)) == if y < 7 then 512 else 508
  {
  }

  lemma WitnessSum() returns (block: seq<int>)
    ensures Samples(block) && Sum(block) == 4092
  {
    block := WitnessBlock();
    WitnessRow(0);
    var sums := seq(8, k requires 0 <= k < 8 => Sum8(Row(block, k)));
    forall y | 0 <= y < 8 ensures sums[y] == if y < 7 then 512 else 508 {
      WitnessRow(y);
    }
    RowSums(block);
  }

  /** The encoder meets a value that the quantiser does not round: at quality 90 the first entry of the
      luma table is 24, and some block's first coefficient is 4092. */
  lemma RoundingFailsInImage() returns (block: seq<int>)
    ensures Samples(block) && Transform(block)[0] == 4092
    ensures QualityEntry(16, 90) == 24 && !RoundsExactly(4092, 24)
  {
    EntryAt90();
    RoundingFails();
    block := WitnessFirst();
  }

  lemma WitnessFirst() returns (block: seq<int>)
    ensures Samples(block) && Transform(block)[0] == 4092
  {
    block := WitnessSum();
    TransformBounds(block);
  }

  lemma EntryAt90()
    ensures QualityEntry(16, 90) == 24
  {
  }

  lemma UnitAtSmall(f: Frame, c: nat, at: Place)
    requires ValidFrame(f) && c < |f.components| && ValidPlace(at, SizesOf(f, c))
    ensures SmallUnit(UnitAt(f, c, at)) && UnitAt(f, c, at).component == c
  {
    QuantizedSmall(c, BlockAt(f.image.planes[c], f.image.width, f.image.height, SizesOf(f, c), at),
                   f.qTables[f.components[c].quantTable]);
  }

  lemma ComponentUnitsSmall(f: Frame, c: nat, mcuX: nat, mcuY: nat)
    requires ValidFrame(f) && c < |f.components|
    ensures AllSmall(ComponentUnits(f, c, mcuX, mcuY)) && Known(f.components, ComponentUnits(f, c, mcuX, mcuY))
  {
    var units := ComponentUnits(f, c, mcuX, mcuY);
    forall k | 0 <= k < |units| ensures SmallUnit(units[k]) && units[k].component < |f.components| {
      PlaceValid(f, c, mcuX, mcuY, k);
      UnitAtSmall(f, c, PlaceOf(f.components[c].horizontal, mcuX, mcuY, k));
    }
  }

  lemma {:induction false} McuUnitsSmall(f: Frame, count: nat, mcuX: nat, mcuY: nat)
    requires ValidFrame(f) && count <= |f.components|
    ensures AllSmall(McuUnits(f, count, mcuX, mcuY)) && Known(f.components, McuUnits(f, count, mcuX, mcuY))
  {
    if count > 0 {
      McuUnitsSmall(f, count - 1, mcuX, mcuY);
      ComponentUnitsSmall(f, count - 1, mcuX, mcuY);
    }
  }

  lemma McuSmall(f: Frame, m: nat)
    requires ValidFrame(f) && Columns(f) > 0
    ensures AllSmall(Mcu(f, m)) && Known(f.components, Mcu(f, m))
  {
    McuUnitsSmall(f, |f.components|, m % Columns(f), m / Columns(f));
  }

  lemma McusSmall(f: Frame)
    requires ValidFrame(f)
    ensures AllKnown(f.components, Mcus(f)) && forall m :: 0 <= m < |Mcus(f)| ==> AllSmall(Mcus(f)[m])
  {
    SomeColumns(f);
    var mcus := Mcus(f);
    forall m | 0 <= m < |mcus| ensures AllSmall(mcus[m]) && Known(f.components, mcus[m]) {
      McuSmall(f, m);
    }
  }

  lemma {:induction false} FlattenSmall(components: seq<Component>, mcus: seq<seq<Unit>>)
    requires AllKnown(components, mcus) && forall m :: 0 <= m < |mcus| ==> AllSmall(mcus[m])
    ensures Known(components, Flatten(mcus)) && AllSmall(Flatten(mcus))
  {
    if mcus != [] {
      FlattenSmall(components, mcus[1..]);
    }
  }

  // ---------------------------------------------------------------- small blocks are in range

  lemma {:induction false} SmallInRange(units: seq<Unit>, preds: Predictions)
    requires AllSmall(units) && SmallPreds(preds)
    ensures InRange(units, preds) && SmallPreds(AfterAll(preds, units))
    decreases |units|
  {
    if units != [] {
      SmallInRange(units[1..], After(preds, units[0]));
    }
  }

  lemma {:induction false} SmallMcusInRange(mcus: seq<seq<Unit>>, interval: nat, toGo: nat, preds: Predictions)
    requires (forall m :: 0 <= m < |mcus| ==> AllSmall(mcus[m])) && SmallPreds(preds)
    ensures McusInRange(mcus, interval, toGo, preds)
    decreases |mcus|
  {
    if mcus != [] {
      var (p, g) := if Due(interval, toGo) then (NO_PREDICTIONS, interval) else (preds, toGo);
      SmallInRange(mcus[0], p);
      SmallMcusInRange(mcus[1..], interval, CountDown(g), AfterAll(p, mcus[0]));
    }
  }

  // ---------------------------------------------------------------- the typical tables suffice

  /** Codes for the DC categories up to 11 and for the typical AC symbols. */
  ghost predicate TypicalPair(pair: TablePair)
  {
    && (forall v: byte :: v <= 11 ==> v in pair.dc.values)
    && (forall v: byte :: TypicalAc(v) ==> v in pair.ac.values)
  }

  ghost predicate Typical(tables: Tables)
  {
    forall t :: 0 <= t < 2 ==> TypicalPair(tables[t])
  }

  lemma PairIsTypical(pair: TablePair, dcValues: seq<byte>, acValues: seq<byte>)
    requires pair.dc.values == dcValues && forall v: byte :: v in dcValues <==> v <= 11
    requires pair.ac.values == acValues && forall v: byte :: v in acValues <==> TypicalAc(v)
    ensures TypicalPair(pair)
  {
  }

  lemma LumaIsTypical(pair: TablePair)
    requires pair.dc.values == DEFAULT_DC_VALUES && pair.ac.values == DEFAULT_LUMA_AC_VALUES
    ensures TypicalPair(pair)
  {
    DefaultDcTables();
    DefaultAcTables();
    PairIsTypical(pair, DEFAULT_DC_VALUES, DEFAULT_LUMA_AC_VALUES);
  }

  lemma ChromaIsTypical(pair: TablePair)
    requires pair.dc.values == DEFAULT_DC_VALUES && pair.ac.values == DEFAULT_CHROMA_AC_VALUES
    ensures TypicalPair(pair)
  {
    DefaultDcTables();
    DefaultAcTables();
    PairIsTypical(pair, DEFAULT_DC_VALUES, DEFAULT_CHROMA_AC_VALUES);
  }

  lemma BothTypical(tables: Tables)
    requires TypicalPair(tables[0]) && TypicalPair(tables[1])
    ensures Typical(tables)
  {
  }

  lemma DefaultIsTypical(tables: Tables)
    requires AreDefault(tables)
    ensures ValidTables(tables) && Typical(tables)
  {
    LumaIsTypical(tables[0]);
    ChromaIsTypical(tables[1]);
    BothTypical(tables);
  }

  lemma CategoryBound(v: int16, bound: nat)
    requires Magnitude(v) < Pow2(bound) && bound < 15
    ensures GetCode(v).0 <= bound && (v != 0 ==> GetCode(v).0 > 0)
  {
    GetCodeValue(v);
    Pow2Mono(bound, 15);
    Pow2Values();
    BitLengthAtMost(Magnitude(v), bound);
  }

  /** The DC differences of an image have category 11 at most. */
  lemma DiffTypical(u: Unit, preds: Predictions)
    requires SmallUnit(u) && SmallPreds(preds)
    ensures DcItem(Diff(u, preds)).symbol <= 11
  {
    var diff := Diff(u, preds);
    assert SmallDc(preds[u.component]);
    assert -2042 <= diff <= 2042;
    assert Pow2(11) == 8 * Pow2(8);
    Pow2Values();
    CategoryBound(diff, 11);
  }

  lemma SizeTypical(v: int16)
    requires -1021 <= v <= 1021 && v != 0
    ensures 1 <= GetCode(v).0 <= 10
  {
    assert Pow2(10) == 4 * Pow2(8);
    Pow2Values();
    CategoryBound(v, 10);
  }

  lemma TypicalSymbol(run: nat, size: nat, symbol: byte)
    requires 1 <= size <= 10 && symbol == 16 * run + size
    ensures TypicalAc(symbol)
  {
  }

  lemma AcItemTypical(run: nat, v: int16)
    requires run < 16 && -1021 <= v <= 1021 && v != 0
    ensures TypicalAc(AcItem(run, v).symbol)
  {
    SizeTypical(v);
    TypicalSymbol(run, GetCode(v).0, AcItem(run, v).symbol);
  }

  predicate AllTypical(items: seq<Item>)
  {
    forall i :: 0 <= i < |items| ==> TypicalAc(items[i].symbol)
  }

  lemma OneMoreTypical(item: Item, items: seq<Item>)
    requires TypicalAc(item.symbol) && AllTypical(items)
    ensures AllTypical([item] + items)
  {
  }

  lemma {:induction false} AcItemsTypical(block: Block, k: nat, run: nat)
    requires 1 <= k <= 64 && forall m :: 1 <= m < 64 ==> -1021 <= block[m] <= 1021
    ensures AllTypical(AcItems(block, k, run))
    decreases 64 - k, run
  {
    if k < 64 {
      if block[k] == 0 {
        AcItemsTypical(block, k + 1, run + 1);
      } else if run > 15 {
        AcItemsTypical(block, k, run - 16);
        OneMoreTypical(ZRL, AcItems(block, k, run - 16));
      } else {
        AcItemTypical(run, block[k]);
        AcItemsTypical(block, k + 1, 0);
        OneMoreTypical(AcItem(run, block[k]), AcItems(block, k + 1, 0));
      }
    }
  }

  lemma TypicalCovers(pair: TablePair, items: seq<Item>)
    requires TypicalPair(pair) && AllTypical(items)
    ensures Covers(pair.ac, items)
  {
  }

  lemma UnitTypical(components: seq<Component>, tables: Tables, u: Unit, preds: Predictions)
    requires u.component < |components| && Typical(tables) && SmallUnit(u) && SmallPreds(preds)
    ensures UnitCovered(components, tables, u, preds)
  {
    var c := components[u.component];
    assert TypicalPair(tables[c.dcTable]) && TypicalPair(tables[c.acTable]);
    DiffTypical(u, preds);
    AcItemsTypical(u.block, 1, 0);
    TypicalCovers(tables[c.acTable], AcItems(u.block, 1, 0));
  }

  lemma {:induction false} SmallCovered(components: seq<Component>, tables: Tables, units: seq<Unit>,
                                        preds: Predictions)
    requires Known(components, units) && Typical(tables) && AllSmall(units) && SmallPreds(preds)
    ensures Covered(components, tables, units, preds)
    decreases |units|
  {
    if units != [] {
      UnitTypical(components, tables, units[0], preds);
      SmallCovered(components, tables, units[1..], After(preds, units[0]));
    }
  }

  lemma {:induction false} SmallMcusCovered(components: seq<Component>, tables: Tables, mcus: seq<seq<Unit>>,
                                            interval: nat, toGo: nat, preds: Predictions)
    requires AllKnown(components, mcus) && Typical(tables) && SmallPreds(preds)
    requires forall m :: 0 <= m < |mcus| ==> AllSmall(mcus[m])
    ensures McusCovered(components, tables, mcus, interval, toGo, preds)
    decreases |mcus|
  {
    if mcus != [] {
      var (p, g) := if Due(interval, toGo) then (NO_PREDICTIONS, interval) else (preds, toGo);
      SmallCovered(components, tables, mcus[0], p);
      SmallInRange(mcus[0], p);
      SmallMcusCovered(components, tables, mcus[1..], interval, CountDown(g), AfterAll(p, mcus[0]));
    }
  }

  // ---------------------------------------------------------------- the blocks of every component

  lemma {:induction false} ComponentInMcu(f: Frame, c: nat, count: nat, mcuX: nat, mcuY: nat) returns (i: nat)
    requires ValidFrame(f) && c < count <= |f.components|
    ensures i < |McuUnits(f, count, mcuX, mcuY)| && McuUnits(f, count, mcuX, mcuY)[i].component == c
    decreases count
  {
    var before := McuUnits(f, count - 1, mcuX, mcuY);
    var own := ComponentUnits(f, count - 1, mcuX, mcuY);
    if c < count - 1 {
      i := ComponentInMcu(f, c, count - 1, mcuX, mcuY);
    } else {
      i := |before|;
      PlaceValid(f, c, mcuX, mcuY, 0);
      SomeBlock(f, c);
      assert own[0].component == c;
    }
  }

  lemma SomeBlock(f: Frame, c: nat)
    requires ValidFrame(f) && c < |f.components|
    ensures f.components[c].horizontal * f.components[c].vertical > 0
  {
    assert SmallFactor(f.components[c].horizontal) && SmallFactor(f.components[c].vertical);
  }

  /** Every component of the frame has a block in the scan. */
  lemma ComponentInScan(f: Frame, c: nat) returns (i: nat)
    requires ValidFrame(f) && c < |f.components|
    ensures i < |Flatten(Mcus(f))| && Flatten(Mcus(f))[i].component == c
  {
    SomeColumns(f);
    MulAtLeast(Columns(f), Rows(f));
    var mcus := Mcus(f);
    i := ComponentInMcu(f, c, |f.components|, 0, 0);
    DivModUnique(0, Columns(f), 0, 0);
    assert mcus[0] == McuUnits(f, |f.components|, 0, 0);
  }

  /** A component uses table t, for each class. */
  ghost predicate TableUsed(components: seq<Component>, t: nat)
  {
    && (exists c :: 0 <= c < |components| && components[c].dcTable == t)
    && (exists c :: 0 <= c < |components| && components[c].acTable == t)
  }

  /** Every table that the two-pass scan optimises is used. */
  ghost predicate EveryTableUsed(components: seq<Component>, count: nat)
  {
    forall t :: 0 <= t < count ==> TableUsed(components, t)
  }

  lemma ImageHasData(f: Frame, t: nat, blocks: seq<Unit>)
    requires ValidFrame(f) && TableUsed(f.components, t) && blocks == Flatten(Mcus(f))
    ensures exists i :: 0 <= i < |blocks| && HasDc(f.components, t, blocks[i])
    ensures exists i :: 0 <= i < |blocks| && HasAc(f.components, t, blocks[i])
  {
    var dc :| 0 <= dc < |f.components| && f.components[dc].dcTable == t;
    var ac :| 0 <= ac < |f.components| && f.components[ac].acTable == t;
    var i := ComponentInScan(f, dc);
    var j := ComponentInScan(f, ac);
    assert HasDc(f.components, t, blocks[i]) && HasAc(f.components, t, blocks[j]);
  }

  lemma CodableUnits(units: seq<Unit>)
    requires AllSmall(units)
    ensures forall i :: 0 <= i < |units| ==> Codable(units[i].block)
  {
  }

  lemma ColumnsAtMost(size: nat, max: nat)
    requires SmallFactor(max) && size <= 1024
    ensures CeilDiv(size, 8 * max) * max <= 128
  {
    CeilDivLeast(size, 8 * max);
    assert (128 / max) * (8 * max) == 1024;
    assert CeilDiv(size, 8 * max) <= 128 / max;
  }

  lemma {:induction false} BlocksAtMost(components: seq<Component>, count: nat, maxH: nat, maxV: nat)
    requires count <= |components|
    requires forall c :: 0 <= c < |components| ==> components[c].horizontal <= maxH && components[c].vertical <= maxV
    ensures BlocksPerMcu(components, count) <= count * (maxH * maxV)
  {
    if count > 0 {
      BlocksAtMost(components, count - 1, maxH, maxV);
      MulBelow(components[count - 1].horizontal, maxH, components[count - 1].vertical, maxV);
      MulDistributes(count - 1, 1, maxH * maxV);
    }
  }

  lemma Regroup(columns: nat, rows: nat, maxH: nat, maxV: nat, blocks: nat)
    requires SmallFactor(maxH) && SmallFactor(maxV) && columns * maxH <= 128 && rows * maxV <= 128
    requires blocks <= 3 * (maxH * maxV)
    ensures (columns * rows) * blocks <= 49152
  {
    MulBelow(columns * rows, columns * rows, blocks, 3 * (maxH * maxV));
    MulBelow(columns * maxH, 128, rows * maxV, 128);
    assert (columns * rows) * (maxH * maxV) == (columns * maxH) * (rows * maxV);
    assert (columns * rows) * (3 * (maxH * maxV)) == 3 * ((columns * rows) * (maxH * maxV));
  }

  /** Images up to 1024 by 1024 in up to three components are small enough for the two-pass scan. */
  lemma SmallImage(f: Frame)
    requires ValidFrame(f) && f.image.width <= 1024 && f.image.height <= 1024 && |f.components| <= 3
    ensures (Columns(f) * Rows(f)) * BlocksPerMcu(f.components, |f.components|) <= 49152 < 146467
  {
    var maxH, maxV := MaxH(f.components), MaxV(f.components);
    MaxFactors(f.components);
    ColumnsAtMost(f.image.width, maxH);
    ColumnsAtMost(f.image.height, maxV);
    BlocksAtMost(f.components, |f.components|, maxH, maxV);
    MulBelow(|f.components|, 3, maxH * maxV, maxH * maxV);
    Regroup(Columns(f), Rows(f), maxH, maxV, BlocksPerMcu(f.components, |f.components|));
  }

  /** The tallies of the whole image give tables: what the two-pass scan asks for, since the source
      stops or overflows on any others. */
  ghost predicate ImageTabulable(f: Frame, count: nat)
    requires ValidFrame(f)
  {
    McusSmall(f);
    FlattenSmall(f.components, Mcus(f));
    forall t :: 0 <= t < count ==> Tabulable(f.components, t, Flatten(Mcus(f)))
  }

  lemma BlocksTabulable(f: Frame, t: nat, blocks: seq<Unit>)
    requires ValidFrame(f) && TableUsed(f.components, t) && blocks == Flatten(Mcus(f)) && |blocks| < 146467
    requires Known(f.components, blocks) && AllSmall(blocks)
    ensures Tabulable(f.components, t, blocks)
  {
    ImageHasData(f, t, blocks);
    CodableUnits(blocks);
    SmallScan(f.components, t, blocks);
  }

  /** An image of fewer than 146467 blocks gives tables, if some component uses each. */
  lemma FewBlocksTabulable(f: Frame, count: nat)
    requires ValidFrame(f) && EveryTableUsed(f.components, count)
    requires (Columns(f) * Rows(f)) * BlocksPerMcu(f.components, |f.components|) < 146467
    ensures ImageTabulable(f, count)
  {
    McusSmall(f);
    FlattenSmall(f.components, Mcus(f));
    ScanSize(f);
    forall t | 0 <= t < count ensures Tabulable(f.components, t, Flatten(Mcus(f))) {
      BlocksTabulable(f, t, Flatten(Mcus(f)));
    }
  }

  /** So does any image of up to 1024 by 1024 in up to three components. */
  lemma SmallImageTabulable(f: Frame, count: nat)
    requires ValidFrame(f) && EveryTableUsed(f.components, count)
    requires f.image.width <= 1024 && f.image.height <= 1024 && |f.components| <= 3
    ensures ImageTabulable(f, count)
  {
    SmallImage(f);
    FewBlocksTabulable(f, count);
  }

  // ---------------------------------------------------------------- whole images

  /** The blocks a decoder should read from a scan of the image. */
  function Expected(f: Frame): seq<DecodedUnit>
    requires ValidFrame(f)
  {
    AllDecoded(Flatten(Mcus(f)))
  }

  /** The bits of the two-pass scan of an image. */
  function ImageBits(f: Frame, tables: Tables): seq<bool>
    requires ValidFrame(f)
  {
    McusSmall(f);
    FlattenSmall(f.components, Mcus(f));
    ScanBits(f.components, tables, Flatten(Mcus(f)), NO_PREDICTIONS)
  }

  /** The tables in use are best for the symbols of the image, and make its scan shortest unless a code size
      had to be limited. */
  ghost predicate BestForImage(f: Frame, tables: Tables, count: nat)
    requires ValidFrame(f) && count <= 2
  {
    McusSmall(f);
    FlattenSmall(f.components, Mcus(f));
    var blocks := Flatten(Mcus(f));
    && AllBest(f.components, tables, count, blocks)
    && (AllLow(f.components, count, blocks) ==> ShortestScan(f.components, tables, count, blocks))
  }

  /** The two-pass scan of an image, from its rows to its bytes: a decoder that has the tables it leaves
      behind and knows the frame header reads exactly the quantised blocks of the image back, and what it
      multiplies out of them is within one step of the transform of the image's samples. */
  method EncodeImageInterleavedOptimized(f: Frame, encoder: Encoder)
    requires ValidFrame(f) && encoder.Valid() && encoder.components == f.components
    requires TablesInUse(f.components, encoder.MaxTables()) && ImageTabulable(f, encoder.MaxTables())
    modifies encoder`huffmanTables, encoder.writer
    ensures encoder.Valid()
    ensures encoder.writer.out == old(encoder.writer.out) + EntropyBytes(ImageBits(f, encoder.huffmanTables))
    ensures BestForImage(f, encoder.huffmanTables, encoder.MaxTables()) && DecodesImage(f, Expected(f))
    ensures forall after | AtMarker(after) ::
              DecodeSegment(f.components, encoder.huffmanTables,
                            Flatten(HeaderOrder(f.image.width, f.image.height, f.components)),
                            encoder.writer.out[|old(encoder.writer.out)|..] + after)
              == ScanData(Expected(f), after)
  {
    var blocks := CollectBlocks(f);
    McusSmall(f);
    FlattenSmall(f.components, Mcus(f));
    SmallInRange(blocks, NO_PREDICTIONS);
    OrderIsHeaders(f);
    encoder.EncodeInterleavedOptimized(blocks);
  }

  /** What the one-pass scan asks of the MCUs holds for every image. */
  lemma ImageCovered(f: Frame, tables: Tables, interval: nat)
    requires ValidFrame(f) && AreDefault(tables)
    ensures AllKnown(f.components, Mcus(f)) && ValidTables(tables)
    ensures McusCovered(f.components, tables, Mcus(f), interval, interval, NO_PREDICTIONS)
    ensures McusInRange(Mcus(f), interval, interval, NO_PREDICTIONS)
  {
    McusSmall(f);
    DefaultIsTypical(tables);
    SmallMcusCovered(f.components, tables, Mcus(f), interval, interval, NO_PREDICTIONS);
    SmallMcusInRange(Mcus(f), interval, interval, NO_PREDICTIONS);
  }

  /** The one-pass scan of any image with the default tables, with any restart interval, decodes to its
      quantised blocks in the order that the frame header tells. */
  lemma OnePassRoundTrip(f: Frame, tables: Tables, interval: nat, after: seq<byte>)
    requires ValidFrame(f) && AreDefault(tables) && AtMarker(after)
    ensures AllKnown(f.components, Mcus(f))
    ensures DecodeRestartScan(f.components, tables, HeaderOrder(f.image.width, f.image.height, f.components), interval,
                              Segments(f.components, tables, Mcus(f), interval, 0) + after)
         == ScanData(Expected(f), after)
  {
    ImageCovered(f, tables, interval);
    OrderIsHeaders(f);
    RestartRoundTrip(f.components, tables, Mcus(f), interval, after);
  }

  /** In the middle of the one-pass scan of an image, with MCU m next. */
  ghost predicate ScanAt(encoder: Encoder, mcus: seq<seq<Unit>>, m: nat, interval: nat, toGo: nat, restarts: nat,
                         preds: Predictions, count: nat, total: seq<byte>)
    reads encoder, encoder.writer
  {
    m <= |mcus| && restarts == count % 8 && encoder.Midway(mcus[m..], interval, toGo, preds, count, total)
  }

  /** The first MCU of a row. */
  function RowStart(mcuY: nat, columns: nat): nat
  {
    if mcuY == 0 then 0 else RowStart(mcuY - 1, columns) + columns
  }

  lemma {:induction false} RowStartIs(mcuY: nat, columns: nat)
    ensures RowStart(mcuY, columns) == mcuY * columns
  {
    if mcuY > 0 {
      RowStartIs(mcuY - 1, columns);
      MulDistributes(mcuY - 1, 1, columns);
    }
  }

  lemma McuIs(f: Frame, mcuX: nat, mcuY: nat, m: nat)
    requires ValidFrame(f) && mcuX < Columns(f) && mcuY < Rows(f) && m == RowStart(mcuY, Columns(f)) + mcuX
    ensures m < |Mcus(f)| && Mcus(f)[m] == McuUnits(f, |f.components|, mcuX, mcuY)
    ensures Mcus(f)[m..][0] == Mcus(f)[m] && Mcus(f)[m..][1..] == Mcus(f)[m + 1..]
  {
    RowStartIs(mcuY, Columns(f));
    DivModUnique(m, Columns(f), mcuY, mcuX);
    InsideRow(mcuY, Rows(f), mcuX, Columns(f));
  }

  /** Samples, transforms, quantises and writes one MCU. */
  method EncodeMcu(f: Frame, encoder: Encoder, rows: seq<seq<byte>>, mcuX: nat, mcuY: nat, ghost m: nat,
                   ghost mcus: seq<seq<Unit>>, interval: nat, toGo: nat, restarts: nat, preds: Predictions,
                   ghost count: nat, ghost total: seq<byte>)
    returns (toGo': nat, restarts': nat, prevDc: Predictions)
    requires ValidFrame(f) && RowsReady(f, rows, mcuY) && mcuX < Columns(f) && mcuY < Rows(f)
    requires m == RowStart(mcuY, Columns(f)) + mcuX && mcus == Mcus(f)
    requires ScanAt(encoder, mcus, m, interval, toGo, restarts, preds, count, total)
    modifies encoder.writer
    ensures ScanAt(encoder, mcus, m + 1, interval, toGo', restarts', prevDc, Restarts(interval, toGo, count), total)
  {
    McuIs(f, mcuX, mcuY, m);
    var units := CollectMcu(f, rows, mcuX, mcuY);
    toGo', restarts', prevDc := encoder.WriteMcu(units, mcus[m..], interval, toGo, restarts, preds, count, total);
  }

  /** One row of MCUs. */
  method EncodeRow(f: Frame, encoder: Encoder, mcuY: nat, columns: nat, ghost first: nat,
                   ghost mcus: seq<seq<Unit>>, interval: nat, toGo: nat, restarts: nat, preds: Predictions,
                   ghost count: nat, ghost total: seq<byte>)
    returns (toGo': nat, restarts': nat, prevDc: Predictions, ghost count': nat)
    requires ValidFrame(f) && mcuY < Rows(f) && columns == Columns(f) && mcus == Mcus(f)
    requires first == RowStart(mcuY, columns)
    requires ScanAt(encoder, mcus, first, interval, toGo, restarts, preds, count, total)
    modifies encoder.writer
    ensures ScanAt(encoder, mcus, first + columns, interval, toGo', restarts', prevDc, count', total)
  {
    var rows := FillRows(f, mcuY);
    toGo', restarts', prevDc, count' := toGo, restarts, preds, count;
    for mcuX := 0 to columns
      invariant ScanAt(encoder, mcus, first + mcuX, interval, toGo', restarts', prevDc, count', total)
    {
      ghost var next := Restarts(interval, toGo', count');
      toGo', restarts', prevDc :=
        EncodeMcu(f, encoder, rows, mcuX, mcuY, first + mcuX, mcus, interval, toGo', restarts', prevDc, count',
                  total);
      count' := next;
    }
  }

  lemma NoneLeft(mcus: seq<seq<Unit>>, rows: nat, columns: nat, first: nat)
    requires |mcus| == columns * rows && first == RowStart(rows, columns)
    ensures first == |mcus| && mcus[first..] == []
  {
    RowStartIs(rows, columns);
    SameProduct(rows, columns);
  }

  /** The MCUs of an image, row by row. */
  method EncodeRows(f: Frame, encoder: Encoder, rows: nat, columns: nat, ghost mcus: seq<seq<Unit>>, interval: nat,
                    ghost total: seq<byte>)
    returns (toGo: nat, restarts: nat, prevDc: Predictions, ghost count: nat, ghost first: nat)
    requires ValidFrame(f) && rows == Rows(f) && columns == Columns(f) && mcus == Mcus(f)
    requires ScanAt(encoder, mcus, 0, interval, interval, 0, NO_PREDICTIONS, 0, total)
    modifies encoder.writer
    ensures first == RowStart(rows, columns)
    ensures ScanAt(encoder, mcus, first, interval, toGo, restarts, prevDc, count, total)
  {
    toGo, restarts, prevDc, count, first := interval, 0, NO_PREDICTIONS, 0, 0;
    for mcuY := 0 to rows
      invariant first == RowStart(mcuY, columns)
      invariant ScanAt(encoder, mcus, first, interval, toGo, restarts, prevDc, count, total)
    {
      toGo, restarts, prevDc, count :=
        EncodeRow(f, encoder, mcuY, columns, first, mcus, interval, toGo, restarts, prevDc, count, total);
      first := first + columns;
    }
  }

  method EncodeScan(f: Frame, encoder: Encoder, ghost mcus: seq<seq<Unit>>, interval: nat, ghost total: seq<byte>)
    requires ValidFrame(f) && mcus == Mcus(f)
    requires ScanAt(encoder, mcus, 0, interval, interval, 0, NO_PREDICTIONS, 0, total)
    modifies encoder.writer
    ensures encoder.Valid() && encoder.writer.out == total
  {
    var rows, columns := Rows(f), Columns(f);
    var toGo, restarts, prevDc, count, first := EncodeRows(f, encoder, rows, columns, mcus, interval, total);
    NoneLeft(mcus, rows, columns, first);
    encoder.EndScan(interval, toGo, prevDc, count, total);
  }

  lemma AllRoundTrips(f: Frame, tables: Tables, interval: nat)
    requires ValidFrame(f) && AreDefault(tables) && AllKnown(f.components, Mcus(f))
    ensures forall after | AtMarker(after) ::
              DecodeRestartScan(f.components, tables, HeaderOrder(f.image.width, f.image.height, f.components),
                                interval, Segments(f.components, tables, Mcus(f), interval, 0) + after)
              == ScanData(Expected(f), after)
  {
    forall after | AtMarker(after)
      ensures DecodeRestartScan(f.components, tables, HeaderOrder(f.image.width, f.image.height, f.components),
                                interval, Segments(f.components, tables, Mcus(f), interval, 0) + after)
           == ScanData(Expected(f), after)
    {
      OnePassRoundTrip(f, tables, interval, after);
    }
  }

  /** The one-pass scan of an image, from its rows to its bytes, with the default tables and any restart
      interval: a decoder that has those tables and knows the frame header reads exactly the quantised
      blocks of the image back, and what it multiplies out of them is within one step of the transform of
      the image's samples. */
  method EncodeImageInterleaved(f: Frame, encoder: Encoder, restartInterval: nat)
    requires ValidFrame(f) && encoder.Valid() && encoder.components == f.components
    requires AreDefault(encoder.huffmanTables)
    modifies encoder.writer
    ensures encoder.Valid() && AllKnown(f.components, Mcus(f)) && DecodesImage(f, Expected(f))
    ensures encoder.writer.out
         == old(encoder.writer.out) + Segments(f.components, encoder.huffmanTables, Mcus(f), restartInterval, 0)
    ensures forall after | AtMarker(after) ::
              DecodeRestartScan(f.components, encoder.huffmanTables,
                                HeaderOrder(f.image.width, f.image.height, f.components), restartInterval,
                                encoder.writer.out[|old(encoder.writer.out)|..] + after)
              == ScanData(Expected(f), after)
  {
    ghost var mcus, tables := Mcus(f), encoder.huffmanTables;
    ImageCovered(f, tables, restartInterval);
    ghost var bytes := Segments(f.components, tables, mcus, restartInterval, 0);
    encoder.StartScan(mcus, restartInterval);
    assert mcus[0..] == mcus;
    EncodeScan(f, encoder, mcus, restartInterval, encoder.writer.out + bytes);
    assert encoder.writer.out[|old(encoder.writer.out)|..] == bytes;
    AllRoundTrips(f, tables, restartInterval);
    ScanDecodes(f);
  }
}

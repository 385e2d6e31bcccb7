/** Interleaved scans: what a scan is as a bit string, how a decoder reads it back, and the symbols
    it needs codes for. */
module Scan {
  import opened EntropyCoding
  import opened HuffmanCode
  import opened Sequences

  type TableIndex = n: nat | n < 2

  datatype Component = Component(quantTable: TableIndex, horizontal: nat, vertical: nat, dcTable: TableIndex,
                                 acTable: TableIndex)

  datatype TablePair = TablePair(dc: HuffmanTable, ac: HuffmanTable)

  /** The tables of the two destinations, luma and chroma. */
  type Tables = s: seq<TablePair> | |s| == 2 ghost witness [SomePair(), SomePair()]

  ghost function SomePair(): TablePair
  {
    var t := HuffmanTable(seq(256, _ => Entry(0, 0)), seq(16, _ => 0), []);
    TablePair(t, t)
  }

  type ComponentIndex = n: nat | n < 4

  /** One quantised block of one component. */
  datatype Unit = Unit(component: ComponentIndex, block: Block)

  /** The last DC value of each component. */
  type Predictions = p: seq<int16> | |p| == 4 witness [0, 0, 0, 0]

  const NO_PREDICTIONS: Predictions := [0, 0, 0, 0]

  ghost predicate ValidTables(tables: Tables)
  {
    forall k :: 0 <= k < 2 ==> ValidTable(tables[k].dc) && ValidTable(tables[k].ac)
  }

  /** Every unit belongs to a component of the frame. */
  predicate Known(components: seq<Component>, units: seq<Unit>)
  {
    forall i :: 0 <= i < |units| ==> units[i].component < |components|
  }

  function After(preds: Predictions, u: Unit): Predictions
  {
    preds[u.component := u.block[0]]
  }

  function AfterAll(preds: Predictions, units: seq<Unit>): Predictions
    decreases |units|
  {
    if units == [] then preds else AfterAll(After(preds, units[0]), units[1..])
  }

  /** The DC difference, a wrapping 16-bit subtraction. */
  function Diff(u: Unit, preds: Predictions): int16
  {
    Sub16(u.block[0], preds[u.component])
  }

  /** The coefficients and the DC difference of every unit are in the range the coder can represent. */
  predicate InRange(units: seq<Unit>, preds: Predictions)
    decreases |units|
  {
    units == [] ||
    (UnitInRange(units[0], preds) && InRange(units[1..], After(preds, units[0])))
  }

  predicate UnitInRange(u: Unit, preds: Predictions)
  {
    -0x8000 < u.block[0] - preds[u.component] < 0x8000 && Codable(u.block)
  }

  // ---------------------------------------------------------------- the bits of a scan

  function UnitBits(components: seq<Component>, tables: Tables, u: Unit, preds: Predictions): seq<bool>
    requires u.component < |components|
  {
    var c := components[u.component];
    BlockBits(u.block, Diff(u, preds), tables[c.dcTable].dc, tables[c.acTable].ac)
  }

  function ScanBits(components: seq<Component>, tables: Tables, units: seq<Unit>, preds: Predictions): seq<bool>
    requires Known(components, units)
    decreases |units|
  {
    if units == [] then []
    else
      UnitBits(components, tables, units[0], preds) + ScanBits(components, tables, units[1..], After(preds, units[0]))
  }

  /** The tables of its component have a code for every item of the unit. */
  ghost predicate UnitCovered(components: seq<Component>, tables: Tables, u: Unit, preds: Predictions)
    requires u.component < |components|
  {
    var c := components[u.component];
    && DcItem(Diff(u, preds)).symbol in tables[c.dcTable].dc.values
    && Covers(tables[c.acTable].ac, AcItems(u.block, 1, 0))
  }

  ghost predicate Covered(components: seq<Component>, tables: Tables, units: seq<Unit>, preds: Predictions)
    requires Known(components, units)
    decreases |units|
  {
    units == [] ||
    (UnitCovered(components, tables, units[0], preds)
     && Covered(components, tables, units[1..], After(preds, units[0])))
  }

  // ---------------------------------------------------------------- decoding a scan

  datatype DecodedUnit = DecodedUnit(component: nat, block: seq<int>)

  function AllDecoded(units: seq<Unit>): (r: seq<DecodedUnit>)
    ensures |r| == |units|
  {
    if units == [] then [] else [DecodedUnit(units[0].component, units[0].block)] + AllDecoded(units[1..])
  }

  /** The component of every unit, in scan order: as the encoder has them. */
  function Order(units: seq<Unit>): (r: seq<nat>)
    ensures |r| == |units|
  {
    if units == [] then [] else [units[0].component as nat] + Order(units[1..])
  }

  /** The scan order of one MCU as a decoder knows it from the sampling factors in the frame header:
      the first `count` components in turn, each as often as it has blocks (section A.2.3 of T.81). */
  function McuOrder(components: seq<Component>, count: nat): seq<nat>
    requires count <= |components|
  {
    if count == 0 then []
    else
      var c := components[count - 1];
      McuOrder(components, count - 1) + seq(c.horizontal * c.vertical, _ => count - 1)
  }

  /** The scan order of so many MCUs. */
  function ScanOrder(components: seq<Component>, mcus: nat): seq<seq<nat>>
  {
    seq(mcus, _ => McuOrder(components, |components|))
  }

  datatype ScanState = Broken | Reading(blocks: seq<DecodedUnit>, preds: seq<int>, bits: seq<bool>)

  /** Decodes as many blocks as the scan order lists, keeping one DC prediction a component. */
  function DecodeScan(components: seq<Component>, tables: Tables, order: seq<nat>, preds: seq<int>,
                      bits: seq<bool>): (r: ScanState)
    requires |preds| == 4
    ensures r.Reading? ==> |r.preds| == 4
    decreases |order|
  {
    if order == [] then Reading([], preds, bits)
    else
      var c := order[0];
      if c >= |components| || c >= 4 then Broken
      else
        match DecodeBlock(tables[components[c].dcTable].dc, tables[components[c].acTable].ac, preds[c], bits)
        case Fail => Broken
        case Got(block, rest) =>
          if block == [] then Broken
          else
            match DecodeScan(components, tables, order[1..], preds[c := block[0]], rest)
            case Broken => Broken
            case Reading(more, preds', rest') => Reading([DecodedUnit(c, block)] + more, preds', rest')
  }

  /** Decoding the bits of a scan gives back its blocks, in order, whatever bits follow. */
  lemma {:induction false} DecodeScanBits(components: seq<Component>, tables: Tables, units: seq<Unit>,
                                          preds: Predictions, rest: seq<bool>)
    requires Known(components, units) && ValidTables(tables) && InRange(units, preds)
    requires Covered(components, tables, units, preds)
    ensures DecodeScan(components, tables, Order(units), preds, ScanBits(components, tables, units, preds) + rest)
         == Reading(AllDecoded(units), AfterAll(preds, units), rest)
    decreases |units|
  {
    if units == [] {
      assert [] + rest == rest;
    } else {
      var u, after := units[0], After(preds, units[0]);
      var tail := ScanBits(components, tables, units[1..], after);
      DecodeScanBits(components, tables, units[1..], after, rest);
      DecodeUnit(components, tables, u, preds, u.block, tail + rest);
      ConcatAssoc(UnitBits(components, tables, u, preds), tail, rest);
      DecodeScanStep(components, tables, units, preds, u.block, UnitBits(components, tables, u, preds) + (tail + rest),
                     tail + rest, AfterAll(after, units[1..]), rest);
    }
  }

  lemma DecodeUnit(components: seq<Component>, tables: Tables, u: Unit, preds: Predictions, block: seq<int>,
                   rest: seq<bool>)
    requires u.component < |components| && ValidTables(tables) && UnitInRange(u, preds) && block == u.block
    requires UnitCovered(components, tables, u, preds)
    ensures var c := components[u.component];
            DecodeBlock(tables[c.dcTable].dc, tables[c.acTable].ac, preds[u.component],
                        UnitBits(components, tables, u, preds) + rest) == Got(block, rest)
  {
    var c := components[u.component];
    DecodeEncodeBlock(tables[c.dcTable].dc, tables[c.acTable].ac, u.block, preds[u.component], rest);
  }

  /** Decoding a scan from its first block on. */
  lemma DecodeScanStep(components: seq<Component>, tables: Tables, units: seq<Unit>, preds: Predictions,
                       block: seq<int>, bits: seq<bool>, tail: seq<bool>, end: Predictions, rest: seq<bool>)
    requires units != [] && units[0].component < |components| && block == units[0].block
    requires var c := components[units[0].component];
             DecodeBlock(tables[c.dcTable].dc, tables[c.acTable].ac, preds[units[0].component], bits)
             == Got(block, tail)
    requires DecodeScan(components, tables, Order(units[1..]), After(preds, units[0]), tail)
          == Reading(AllDecoded(units[1..]), end, rest)
    ensures DecodeScan(components, tables, Order(units), preds, bits) == Reading(AllDecoded(units), end, rest)
  {
    assert Order(units)[1..] == Order(units[1..]);
  }
}

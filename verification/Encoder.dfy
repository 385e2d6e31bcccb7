/** The encoder's interleaved scans, in two passes and in one with restart intervals, and their decoder. */
module ScanEncoder {
  import opened Bits
  import opened ByteStream
  import opened DefaultTables
  import opened HuffmanCode
  import opened JfifWriting
  import opened OptimizedTables
  import opened Scan
  import opened ScanCosts
  import opened Sequences

  // ---------------------------------------------------------------- a scan without restarts

  datatype ScanData = Corrupt | ScanData(blocks: seq<DecodedUnit>, rest: seq<byte>)

  /** A decoder's reading of one entropy-coded segment: unstuff it, decode the blocks the scan order
      lists, and find nothing behind them but less than a byte of ones. */
  function DecodeSegment(components: seq<Component>, tables: Tables, order: seq<nat>, data: seq<byte>): ScanData
  {
    var segment := Unstuff(data);
    match DecodeScan(components, tables, order, NO_PREDICTIONS, BitsOfBytes(segment.data))
    case Broken => Corrupt
    case Reading(blocks, _, padding) => if IsPadding(padding) then ScanData(blocks, segment.rest) else Corrupt
  }

  predicate IsPadding(bits: seq<bool>)
  {
    |bits| < 8 && bits == Ones(|bits|)
  }

  /** The stuffed, padded bytes of a segment decode to exactly its blocks, in order, and leave the
      marker that follows. */
  lemma SegmentRoundTrip(components: seq<Component>, tables: Tables, units: seq<Unit>, after: seq<byte>)
    requires Known(components, units) && ValidTables(tables) && InRange(units, NO_PREDICTIONS)
    requires Covered(components, tables, units, NO_PREDICTIONS) && AtMarker(after)
    ensures DecodeSegment(components, tables, Order(units),
                          EntropyBytes(ScanBits(components, tables, units, NO_PREDICTIONS)) + after)
         == ScanData(AllDecoded(units), after)
  {
    var bits := ScanBits(components, tables, units, NO_PREDICTIONS);
    EntropyBytesDecode(bits, after);
    DecodeScanBits(components, tables, units, NO_PREDICTIONS, Ones((8 - |bits| % 8) % 8));
  }

  // ---------------------------------------------------------------- restart intervals

  function RestartMarker(number: nat): (m: seq<byte>)
    ensures |m| == 2
  {
    [0xFF, 0xD0 + number % 8]
  }

  /** A restart is due before the next MCU. */
  predicate Due(interval: nat, toGo: nat)
  {
    interval > 0 && toGo == 0
  }

  function CountDown(toGo: nat): nat
  {
    if toGo == 0 then 0 else toGo - 1
  }

  predicate AllKnown(components: seq<Component>, mcus: seq<seq<Unit>>)
  {
    forall m :: 0 <= m < |mcus| ==> Known(components, mcus[m])
  }

  /** The bits the MCUs add to the open segment, up to the next restart. */
  function SegmentBits(components: seq<Component>, tables: Tables, mcus: seq<seq<Unit>>, interval: nat, toGo: nat,
                       preds: Predictions): seq<bool>
    requires AllKnown(components, mcus)
    decreases |mcus|
  {
    if mcus == [] || Due(interval, toGo) then []
    else
      ScanBits(components, tables, mcus[0], preds)
      + SegmentBits(components, tables, mcus[1..], interval, CountDown(toGo), AfterAll(preds, mcus[0]))
  }

  /** The bytes behind the open segment: where a restart is due, its marker and a new segment. */
  function Behind(components: seq<Component>, tables: Tables, mcus: seq<seq<Unit>>, interval: nat, toGo: nat,
                  restarts: nat): seq<byte>
    requires AllKnown(components, mcus)
    decreases |mcus|, if Due(interval, toGo) then 2 else 0
  {
    if mcus == [] then []
    else if Due(interval, toGo) then
      RestartMarker(restarts) + Segments(components, tables, mcus, interval, restarts + 1)
    else Behind(components, tables, mcus[1..], interval, CountDown(toGo), restarts)
  }

  /** The bytes of a scan that begins a segment here, with no predictions and a full interval to go. */
  function Segments(components: seq<Component>, tables: Tables, mcus: seq<seq<Unit>>, interval: nat,
                    restarts: nat): seq<byte>
    requires AllKnown(components, mcus)
    decreases |mcus|, 1
  {
    EntropyBytes(SegmentBits(components, tables, mcus, interval, interval, NO_PREDICTIONS))
    + Behind(components, tables, mcus, interval, interval, restarts)
  }

  /** The bytes of the whole scan, seen from the middle of a segment. */
  function At(components: seq<Component>, tables: Tables, sink: seq<byte>, written: seq<bool>, mcus: seq<seq<Unit>>,
              interval: nat, toGo: nat, preds: Predictions, restarts: nat): seq<byte>
    requires AllKnown(components, mcus)
  {
    sink + EntropyBytes(written + SegmentBits(components, tables, mcus, interval, toGo, preds))
    + Behind(components, tables, mcus, interval, toGo, restarts)
  }

  lemma AtStart(components: seq<Component>, tables: Tables, sink: seq<byte>, mcus: seq<seq<Unit>>, interval: nat,
                restarts: nat)
    requires AllKnown(components, mcus)
    ensures At(components, tables, sink, [], mcus, interval, interval, NO_PREDICTIONS, restarts)
         == sink + Segments(components, tables, mcus, interval, restarts)
  {
    var bits := SegmentBits(components, tables, mcus, interval, interval, NO_PREDICTIONS);
    assert [] + bits == bits;
    ConcatAssoc(sink, EntropyBytes(bits), Behind(components, tables, mcus, interval, interval, restarts));
  }

  lemma AtRestart(components: seq<Component>, tables: Tables, sink: seq<byte>, written: seq<bool>, mcus: seq<seq<Unit>>,
                  interval: nat, preds: Predictions, restarts: nat)
    requires AllKnown(components, mcus) && mcus != [] && interval > 0
    ensures At(components, tables, sink, written, mcus, interval, 0, preds, restarts)
         == At(components, tables, sink + EntropyBytes(written) + RestartMarker(restarts), [], mcus, interval, interval,
               NO_PREDICTIONS, restarts + 1)
  {
    assert written + [] == written;
    var sink' := sink + EntropyBytes(written) + RestartMarker(restarts);
    AtStart(components, tables, sink', mcus, interval, restarts + 1);
    ConcatAssoc(sink + EntropyBytes(written), RestartMarker(restarts),
                Segments(components, tables, mcus, interval, restarts + 1));
  }

  lemma AtMcu(components: seq<Component>, tables: Tables, sink: seq<byte>, written: seq<bool>, mcus: seq<seq<Unit>>,
              interval: nat, toGo: nat, preds: Predictions, restarts: nat)
    requires AllKnown(components, mcus) && mcus != [] && !Due(interval, toGo)
    ensures At(components, tables, sink, written, mcus, interval, toGo, preds, restarts)
         == At(components, tables, sink, written + ScanBits(components, tables, mcus[0], preds), mcus[1..], interval,
               CountDown(toGo), AfterAll(preds, mcus[0]), restarts)
  {
    ConcatAssoc(written, ScanBits(components, tables, mcus[0], preds),
                SegmentBits(components, tables, mcus[1..], interval, CountDown(toGo), AfterAll(preds, mcus[0])));
  }

  lemma AtEnd(components: seq<Component>, tables: Tables, sink: seq<byte>, written: seq<bool>, interval: nat, toGo: nat,
              preds: Predictions, restarts: nat)
    ensures At(components, tables, sink, written, [], interval, toGo, preds, restarts) == sink + EntropyBytes(written)
  {
    assert written + [] == written;
  }

  lemma SameMarker(restarts: nat, count: nat)
    requires restarts == count % 8
    ensures RestartMarker(restarts) == RestartMarker(count)
    ensures (restarts + 1) % 8 == (count + 1) % 8
  {
  }

  /** Every MCU is covered, with the predictions the scan has when it gets there. */
  ghost predicate McusCovered(components: seq<Component>, tables: Tables, mcus: seq<seq<Unit>>, interval: nat,
                              toGo: nat, preds: Predictions)
    requires AllKnown(components, mcus)
    decreases |mcus|
  {
    mcus == [] ||
    (var (p, g) := if Due(interval, toGo) then (NO_PREDICTIONS, interval) else (preds, toGo);
     && Covered(components, tables, mcus[0], p)
     && McusCovered(components, tables, mcus[1..], interval, CountDown(g), AfterAll(p, mcus[0])))
  }

  /** The next MCU is covered, and so are those behind it. */
  lemma CoveredNext(components: seq<Component>, tables: Tables, mcus: seq<seq<Unit>>, interval: nat, toGo: nat,
                    preds: Predictions)
    requires AllKnown(components, mcus) && mcus != [] && !Due(interval, toGo)
    requires McusCovered(components, tables, mcus, interval, toGo, preds)
    ensures Covered(components, tables, mcus[0], preds)
    ensures McusCovered(components, tables, mcus[1..], interval, CountDown(toGo), AfterAll(preds, mcus[0]))
  {
  }

  /** `total` is what the sink holds in the end if exactly the MCUs are still to come. */
  ghost predicate StillToCome(components: seq<Component>, tables: Tables, sink: seq<byte>, written: seq<bool>,
                              mcus: seq<seq<Unit>>, interval: nat, toGo: nat, preds: Predictions, restarts: nat,
                              total: seq<byte>)
  {
    && AllKnown(components, mcus) && McusCovered(components, tables, mcus, interval, toGo, preds)
    && total == At(components, tables, sink, written, mcus, interval, toGo, preds, restarts)
  }

  lemma NextToCome(components: seq<Component>, tables: Tables, sink: seq<byte>, written: seq<bool>,
                   mcus: seq<seq<Unit>>, interval: nat, toGo: nat, preds: Predictions, restarts: nat, total: seq<byte>)
    requires StillToCome(components, tables, sink, written, mcus, interval, toGo, preds, restarts, total)
    requires mcus != [] && !Due(interval, toGo)
    ensures Known(components, mcus[0]) && Covered(components, tables, mcus[0], preds)
    ensures StillToCome(components, tables, sink, written + ScanBits(components, tables, mcus[0], preds), mcus[1..],
                        interval, CountDown(toGo), AfterAll(preds, mcus[0]), restarts, total)
  {
    AtMcu(components, tables, sink, written, mcus, interval, toGo, preds, restarts);
    CoveredNext(components, tables, mcus, interval, toGo, preds);
  }

  lemma NextUnitBits(components: seq<Component>, tables: Tables, units: seq<Unit>, i: nat, preds: Predictions,
                     written: seq<bool>)
    requires Known(components, units) && i < |units|
    ensures AfterAll(preds, units[i..]) == AfterAll(After(preds, units[i]), units[i + 1..])
    ensures written + ScanBits(components, tables, units[i..], preds)
         == (written + UnitBits(components, tables, units[i], preds))
            + ScanBits(components, tables, units[i + 1..], After(preds, units[i]))
    ensures Covered(components, tables, units[i..], preds) <==>
              UnitCovered(components, tables, units[i], preds)
              && Covered(components, tables, units[i + 1..], After(preds, units[i]))
  {
    assert units[i..][0] == units[i] && units[i..][1..] == units[i + 1..];
  }

  lemma NoMoreUnits(components: seq<Component>, tables: Tables, units: seq<Unit>, preds: Predictions,
                    written: seq<bool>)
    ensures written + ScanBits(components, tables, units[|units|..], preds) == written
    ensures AfterAll(preds, units[|units|..]) == preds
  {
  }

  // ---------------------------------------------------------------- decoding restart intervals

  /** A decoder in the middle of a segment: `bits` is what is left of it, `data` what lies behind. When
      a restart is due it wants the end of the segment, the next restart marker, and a new segment. */
  function DecodeMcus(components: seq<Component>, tables: Tables, orders: seq<seq<nat>>, interval: nat, toGo: nat,
                      restarts: nat, preds: seq<int>, bits: seq<bool>, data: seq<byte>): ScanData
    requires |preds| == 4
    decreases |orders|, if Due(interval, toGo) then 1 else 0
  {
    if orders == [] then if IsPadding(bits) then ScanData([], data) else Corrupt
    else if Due(interval, toGo) then
      if !IsPadding(bits) || |data| < 2 || data[..2] != RestartMarker(restarts) then Corrupt
      else
        var segment := Unstuff(data[2..]);
        DecodeMcus(components, tables, orders, interval, interval, restarts + 1, NO_PREDICTIONS,
                   BitsOfBytes(segment.data), segment.rest)
    else
      match DecodeScan(components, tables, orders[0], preds, bits)
      case Broken => Corrupt
      case Reading(blocks, preds', bits') =>
        match DecodeMcus(components, tables, orders[1..], interval, CountDown(toGo), restarts, preds', bits', data)
        case Corrupt => Corrupt
        case ScanData(more, rest) => ScanData(blocks + more, rest)
  }

  function DecodeRestartScan(components: seq<Component>, tables: Tables, orders: seq<seq<nat>>, interval: nat,
                             data: seq<byte>): ScanData
  {
    var segment := Unstuff(data);
    DecodeMcus(components, tables, orders, interval, interval, 0, NO_PREDICTIONS, BitsOfBytes(segment.data),
               segment.rest)
  }

  function Orders(mcus: seq<seq<Unit>>): (r: seq<seq<nat>>)
    ensures |r| == |mcus|
  {
    if mcus == [] then [] else [Order(mcus[0])] + Orders(mcus[1..])
  }

  /** Every MCU is in range, with the predictions the scan has when it gets there. */
  predicate McusInRange(mcus: seq<seq<Unit>>, interval: nat, toGo: nat, preds: Predictions)
    decreases |mcus|
  {
    mcus == [] ||
    (var (p, g) := if Due(interval, toGo) then (NO_PREDICTIONS, interval) else (preds, toGo);
     && InRange(mcus[0], p)
     && McusInRange(mcus[1..], interval, CountDown(g), AfterAll(p, mcus[0])))
  }

  lemma {:induction false} AllDecodedConcat(a: seq<Unit>, b: seq<Unit>)
    ensures AllDecoded(a + b) == AllDecoded(a) + AllDecoded(b)
  {
    if a == [] {
      assert a + b == b;
    } else {
      AllDecodedConcat(a[1..], b);
      assert (a + b)[1..] == a[1..] + b;
      ConcatAssoc([DecodedUnit(a[0].component, a[0].block)], AllDecoded(a[1..]), AllDecoded(b));
    }
  }

  /** What lies behind a segment begins with a marker, or there is nothing. */
  lemma {:induction false} BehindAtMarker(components: seq<Component>, tables: Tables, mcus: seq<seq<Unit>>,
                                          interval: nat, toGo: nat, restarts: nat, after: seq<byte>)
    requires AllKnown(components, mcus) && AtMarker(after)
    ensures AtMarker(Behind(components, tables, mcus, interval, toGo, restarts) + after)
    decreases |mcus|
  {
    if mcus == [] {
      assert [] + after == after;
    } else if !Due(interval, toGo) {
      BehindAtMarker(components, tables, mcus[1..], interval, CountDown(toGo), restarts, after);
    }
  }

  /** Reading the bytes of a segment that begins here. */
  lemma {:induction false} UnstuffSegments(components: seq<Component>, tables: Tables, mcus: seq<seq<Unit>>,
                                           interval: nat, restarts: nat, after: seq<byte>) returns (padding: seq<bool>)
    requires AllKnown(components, mcus) && AtMarker(after)
    ensures IsPadding(padding)
    ensures var segment := Unstuff(Segments(components, tables, mcus, interval, restarts) + after);
            && BitsOfBytes(segment.data)
               == SegmentBits(components, tables, mcus, interval, interval, NO_PREDICTIONS) + padding
            && segment.rest == Behind(components, tables, mcus, interval, interval, restarts) + after
  {
    var bits := SegmentBits(components, tables, mcus, interval, interval, NO_PREDICTIONS);
    var behind := Behind(components, tables, mcus, interval, interval, restarts);
    BehindAtMarker(components, tables, mcus, interval, interval, restarts, after);
    ConcatAssoc(EntropyBytes(bits), behind, after);
    EntropyBytesDecode(bits, behind + after);
    padding := Ones((8 - |bits| % 8) % 8);
  }

  /** From any point of a segment on, the decoder gets back the blocks of the MCUs that follow. */
  lemma {:induction false} DecodeMcusBack(components: seq<Component>, tables: Tables, mcus: seq<seq<Unit>>,
                                          interval: nat, toGo: nat, restarts: nat, preds: Predictions,
                                          padding: seq<bool>, after: seq<byte>)
    requires AllKnown(components, mcus) && ValidTables(tables) && IsPadding(padding) && AtMarker(after)
    requires McusCovered(components, tables, mcus, interval, toGo, preds) && McusInRange(mcus, interval, toGo, preds)
    ensures DecodeMcus(components, tables, Orders(mcus), interval, toGo, restarts, preds,
                       SegmentBits(components, tables, mcus, interval, toGo, preds) + padding,
                       Behind(components, tables, mcus, interval, toGo, restarts) + after)
         == ScanData(AllDecoded(Flatten(mcus)), after)
    decreases |mcus|, if Due(interval, toGo) then 1 else 0
  {
    if mcus == [] {
      assert [] + padding == padding && [] + after == after;
    } else if Due(interval, toGo) {
      var padding' := UnstuffSegments(components, tables, mcus, interval, restarts + 1, after);
      DecodeMcusBack(components, tables, mcus, interval, interval, restarts + 1, NO_PREDICTIONS, padding', after);
      DueStep(components, tables, mcus, interval, restarts, preds, padding, after);
    } else {
      DecodeMcusBack(components, tables, mcus[1..], interval, CountDown(toGo), restarts, AfterAll(preds, mcus[0]),
                     padding, after);
      McuStep(components, tables, mcus, interval, toGo, restarts, preds, padding, after);
    }
  }

  lemma {:induction false} DueStep(components: seq<Component>, tables: Tables, mcus: seq<seq<Unit>>, interval: nat,
                                   restarts: nat, preds: Predictions, padding: seq<bool>, after: seq<byte>)
    requires AllKnown(components, mcus) && mcus != [] && interval > 0 && IsPadding(padding)
    ensures var segment := Unstuff(Segments(components, tables, mcus, interval, restarts + 1) + after);
            && DecodeMcus(components, tables, Orders(mcus), interval, 0, restarts, preds,
                          SegmentBits(components, tables, mcus, interval, 0, preds) + padding,
                          Behind(components, tables, mcus, interval, 0, restarts) + after)
            == DecodeMcus(components, tables, Orders(mcus), interval, interval, restarts + 1, NO_PREDICTIONS,
                          BitsOfBytes(segment.data), segment.rest)
  {
    assert [] + padding == padding;
    var tail := Segments(components, tables, mcus, interval, restarts + 1);
    MarkerFirst(RestartMarker(restarts), tail, after);
  }

  lemma MarkerFirst(marker: seq<byte>, tail: seq<byte>, after: seq<byte>)
    requires |marker| == 2
    ensures var all := marker + tail + after; |all| >= 2 && all[..2] == marker && all[2..] == tail + after
  {
  }

  lemma {:induction false} McuStep(components: seq<Component>, tables: Tables, mcus: seq<seq<Unit>>, interval: nat,
                                   toGo: nat, restarts: nat, preds: Predictions, padding: seq<bool>, after: seq<byte>)
    requires AllKnown(components, mcus) && ValidTables(tables) && mcus != [] && !Due(interval, toGo)
    requires Covered(components, tables, mcus[0], preds) && InRange(mcus[0], preds)
    requires DecodeMcus(components, tables, Orders(mcus[1..]), interval, CountDown(toGo), restarts,
                        AfterAll(preds, mcus[0]),
                        SegmentBits(components, tables, mcus[1..], interval, CountDown(toGo), AfterAll(preds, mcus[0]))
                        + padding,
                        Behind(components, tables, mcus[1..], interval, CountDown(toGo), restarts) + after)
          == ScanData(AllDecoded(Flatten(mcus[1..])), after)
    ensures DecodeMcus(components, tables, Orders(mcus), interval, toGo, restarts, preds,
                       SegmentBits(components, tables, mcus, interval, toGo, preds) + padding,
                       Behind(components, tables, mcus, interval, toGo, restarts) + after)
         == ScanData(AllDecoded(Flatten(mcus)), after)
  {
    var tail := SegmentBits(components, tables, mcus[1..], interval, CountDown(toGo), AfterAll(preds, mcus[0]))
      + padding;
    ConcatAssoc(ScanBits(components, tables, mcus[0], preds),
                SegmentBits(components, tables, mcus[1..], interval, CountDown(toGo),
                            AfterAll(preds, mcus[0])), padding);
    DecodeScanBits(components, tables, mcus[0], preds, tail);
    assert Orders(mcus)[1..] == Orders(mcus[1..]);
    AllDecodedConcat(mcus[0], Flatten(mcus[1..]));
  }

  /** A scan with restart intervals decodes to exactly its blocks, in MCU order. */
  lemma RestartRoundTrip(components: seq<Component>, tables: Tables, mcus: seq<seq<Unit>>, interval: nat,
                         after: seq<byte>)
    requires AllKnown(components, mcus) && ValidTables(tables) && AtMarker(after)
    requires McusCovered(components, tables, mcus, interval, interval, NO_PREDICTIONS)
    requires McusInRange(mcus, interval, interval, NO_PREDICTIONS)
    ensures DecodeRestartScan(components, tables, Orders(mcus), interval,
                              Segments(components, tables, mcus, interval, 0) + after)
         == ScanData(AllDecoded(Flatten(mcus)), after)
  {
    var padding := UnstuffSegments(components, tables, mcus, interval, 0, after);
    DecodeMcusBack(components, tables, mcus, interval, interval, 0, NO_PREDICTIONS, padding, after);
  }

  /** With and without restart intervals, with any tables that cover them, the blocks read back are the same. */
  lemma ScansAgree(components: seq<Component>, onePass: Tables, twoPass: Tables, mcus: seq<seq<Unit>>, interval: nat,
                   after: seq<byte>)
    requires AllKnown(components, mcus) && ValidTables(onePass) && ValidTables(twoPass) && AtMarker(after)
    requires McusCovered(components, onePass, mcus, interval, interval, NO_PREDICTIONS)
    requires McusInRange(mcus, interval, interval, NO_PREDICTIONS)
    requires var units := Flatten(mcus);
             Known(components, units) && Covered(components, twoPass, units, NO_PREDICTIONS)
               && InRange(units, NO_PREDICTIONS)
    ensures DecodeRestartScan(components, onePass, Orders(mcus), interval,
                              Segments(components, onePass, mcus, interval, 0) + after)
         == DecodeSegment(components, twoPass, Order(Flatten(mcus)),
                          EntropyBytes(ScanBits(components, twoPass, Flatten(mcus), NO_PREDICTIONS)) + after)
  {
    RestartRoundTrip(components, onePass, mcus, interval, after);
    SegmentRoundTrip(components, twoPass, Flatten(mcus), after);
  }

  // ---------------------------------------------------------------- where the markers are

  lemma {:induction false} FlattenKnown(components: seq<Component>, mcus: seq<seq<Unit>>)
    requires AllKnown(components, mcus)
    ensures Known(components, Flatten(mcus))
  {
    if mcus != [] {
      FlattenKnown(components, mcus[1..]);
    }
  }

  lemma KnownConcat(components: seq<Component>, a: seq<Unit>, b: seq<Unit>)
    requires Known(components, a) && Known(components, b)
    ensures Known(components, a + b)
  {
  }

  lemma {:induction false} ScanBitsConcat(components: seq<Component>, tables: Tables, a: seq<Unit>, b: seq<Unit>,
                                          preds: Predictions)
    requires Known(components, a) && Known(components, b) && Known(components, a + b)
    ensures ScanBits(components, tables, a + b, preds)
         == ScanBits(components, tables, a, preds) + ScanBits(components, tables, b, AfterAll(preds, a))
    decreases |a|
  {
    if a == [] {
      assert a + b == b;
    } else {
      KnownConcat(components, a[1..], b);
      ScanBitsConcat(components, tables, a[1..], b, After(preds, a[0]));
      ConcatTail(a, b);
      ConcatAssoc(UnitBits(components, tables, a[0], preds), ScanBits(components, tables, a[1..], After(preds, a[0])),
                  ScanBits(components, tables, b, AfterAll(preds, a)));
    }
  }

  /** The MCUs of the open segment: as many as are left to the next restart. */
  function SegmentSize(mcus: nat, interval: nat, toGo: nat): (n: nat)
    ensures n <= mcus
  {
    if interval > 0 && toGo < mcus then toGo else mcus
  }

  lemma SegmentSizeTail(mcus: nat, interval: nat, toGo: nat)
    requires SegmentSize(mcus, interval, toGo) > 0
    ensures !Due(interval, toGo)
    ensures SegmentSize(mcus - 1, interval, CountDown(toGo)) == SegmentSize(mcus, interval, toGo) - 1
  {
  }

  lemma {:induction false} SegmentBitsOf(components: seq<Component>, tables: Tables, mcus: seq<seq<Unit>>,
                                         interval: nat, toGo: nat, preds: Predictions)
    requires AllKnown(components, mcus)
    ensures var first := Flatten(mcus[..SegmentSize(|mcus|, interval, toGo)]);
            Known(components, first)
            && SegmentBits(components, tables, mcus, interval, toGo, preds)
              == ScanBits(components, tables, first, preds)
    decreases |mcus|
  {
    var n := SegmentSize(|mcus|, interval, toGo);
    FlattenKnown(components, mcus[..n]);
    if n == 0 {
      assert mcus[..0] == [];
    } else {
      var tail := mcus[1..];
      FlattenTake(mcus, n);
      SegmentSizeTail(|mcus|, interval, toGo);
      SegmentBitsOf(components, tables, tail, interval, CountDown(toGo), AfterAll(preds, mcus[0]));
      KnownConcat(components, mcus[0], Flatten(tail[..n - 1]));
      ScanBitsConcat(components, tables, mcus[0], Flatten(tail[..n - 1]), preds);
      SegmentBitsStep(components, tables, mcus, interval, toGo, preds);
    }
  }

  lemma SegmentBitsStep(components: seq<Component>, tables: Tables, mcus: seq<seq<Unit>>, interval: nat, toGo: nat,
                        preds: Predictions)
    requires AllKnown(components, mcus) && mcus != [] && !Due(interval, toGo)
    ensures SegmentBits(components, tables, mcus, interval, toGo, preds)
         == ScanBits(components, tables, mcus[0], preds)
            + SegmentBits(components, tables, mcus[1..], interval, CountDown(toGo), AfterAll(preds, mcus[0]))
  {
  }

  lemma {:induction false} BehindIs(components: seq<Component>, tables: Tables, mcus: seq<seq<Unit>>, interval: nat,
                                    toGo: nat, restarts: nat)
    requires AllKnown(components, mcus)
    ensures var n := SegmentSize(|mcus|, interval, toGo);
            Behind(components, tables, mcus, interval, toGo, restarts)
            == if n == |mcus| then []
               else RestartMarker(restarts) + Segments(components, tables, mcus[n..], interval, restarts + 1)
    decreases |mcus|
  {
    var n := SegmentSize(|mcus|, interval, toGo);
    if mcus != [] && !Due(interval, toGo) {
      BehindIs(components, tables, mcus[1..], interval, CountDown(toGo), restarts);
      assert n > 0 && mcus[1..][n - 1..] == mcus[n..];
    } else {
      assert mcus[0..] == mcus;
    }
  }

  /** A scan is one segment if no interval is set or the MCUs do not exceed it; else a segment of
      exactly `interval` MCUs, the marker RST(s mod 8), and the scan of the rest with the next number. */
  lemma SegmentsAre(components: seq<Component>, tables: Tables, mcus: seq<seq<Unit>>, interval: nat, s: nat)
    requires AllKnown(components, mcus)
    ensures var n := SegmentSize(|mcus|, interval, interval);
            && Known(components, Flatten(mcus[..n]))
            && Segments(components, tables, mcus, interval, s)
               == EntropyBytes(ScanBits(components, tables, Flatten(mcus[..n]), NO_PREDICTIONS))
                  + (if n == |mcus| then []
                     else RestartMarker(s) + Segments(components, tables, mcus[n..], interval, s + 1))
  {
    SegmentBitsOf(components, tables, mcus, interval, interval, NO_PREDICTIONS);
    BehindIs(components, tables, mcus, interval, interval, s);
  }

  /** The bytes of one segment: its own MCUs, with no predictions at the start. */
  function OwnBytes(components: seq<Component>, tables: Tables, own: seq<seq<Unit>>): seq<byte>
    requires AllKnown(components, own)
  {
    FlattenKnown(components, own);
    EntropyBytes(ScanBits(components, tables, Flatten(own), NO_PREDICTIONS))
  }

  /** The MCUs of segment j. */
  function SegmentMcus(mcus: seq<seq<Unit>>, interval: nat, j: nat): (r: seq<seq<Unit>>)
    ensures forall m :: 0 <= m < |r| ==> r[m] in mcus
  {
    MulDistributes(j, 1, interval);
    mcus[Min(j * interval, |mcus|)..Min((j + 1) * interval, |mcus|)]
  }

  /** The first j segments of a scan, the marker RST(i mod 8) behind segment i. */
  function SegmentsTo(components: seq<Component>, tables: Tables, mcus: seq<seq<Unit>>, interval: nat,
                      j: nat): seq<byte>
    requires AllKnown(components, mcus)
  {
    if j == 0 then []
    else
      SegmentsTo(components, tables, mcus, interval, j - 1)
      + OwnBytes(components, tables, SegmentMcus(mcus, interval, j - 1)) + RestartMarker(j - 1)
  }

  lemma SegmentMcusAre(mcus: seq<seq<Unit>>, interval: nat, j: nat, k: nat)
    requires k == j * interval <= |mcus|
    ensures SegmentMcus(mcus, interval, j) == mcus[k..][..Min(interval, |mcus| - k)]
  {
    MulDistributes(j, 1, interval);
  }

  /** The first segment of what is left, and the rest. */
  lemma FirstSegment(components: seq<Component>, tables: Tables, left: seq<seq<Unit>>, interval: nat, s: nat)
    requires AllKnown(components, left) && 0 < interval < |left|
    ensures Segments(components, tables, left, interval, s)
         == OwnBytes(components, tables, left[..interval]) + RestartMarker(s)
            + Segments(components, tables, left[interval..], interval, s + 1)
  {
    SegmentsAre(components, tables, left, interval, s);
    ConcatAssoc(OwnBytes(components, tables, left[..interval]), RestartMarker(s),
                Segments(components, tables, left[interval..], interval, s + 1));
  }

  lemma OneMore(components: seq<Component>, tables: Tables, mcus: seq<seq<Unit>>, interval: nat, before: seq<byte>,
                j: nat, k: nat, next: nat)
    requires AllKnown(components, mcus) && interval > 0 && k == j * interval && next == k + interval < |mcus|
    ensures before + Segments(components, tables, mcus[k..], interval, j)
         == before + OwnBytes(components, tables, SegmentMcus(mcus, interval, j)) + RestartMarker(j)
            + Segments(components, tables, mcus[next..], interval, j + 1)
  {
    var left := mcus[k..];
    assert SegmentMcus(mcus, interval, j) == left[..interval] by {
      SegmentMcusAre(mcus, interval, j, k);
    }
    assert left[interval..] == mcus[next..];
    FirstSegment(components, tables, left, interval, j);
    JoinFour(before, OwnBytes(components, tables, SegmentMcus(mcus, interval, j)), RestartMarker(j),
             Segments(components, tables, mcus[next..], interval, j + 1));
  }

  lemma JoinFour<T>(a: seq<T>, b: seq<T>, c: seq<T>, d: seq<T>)
    ensures a + (b + c + d) == a + b + c + d
  {
  }

  lemma OneLess(j: nat, k: nat, interval: nat) returns (i: nat, before: nat)
    requires k == j * interval && j > 0
    ensures j == i + 1 && k == before + interval && before == i * interval
  {
    i, before := j - 1, k - interval;
    MulDistributes(i, 1, interval);
  }

  /** The scan is the first j segments with their markers, and the scan of what is left from MCU k on. */
  ghost predicate CutAt(components: seq<Component>, tables: Tables, mcus: seq<seq<Unit>>, interval: nat, j: nat, k: nat)
    requires AllKnown(components, mcus) && k <= |mcus|
  {
    Segments(components, tables, mcus, interval, 0)
    == SegmentsTo(components, tables, mcus, interval, j) + Segments(components, tables, mcus[k..], interval, j)
  }

  lemma NoMarkers(components: seq<Component>, tables: Tables, mcus: seq<seq<Unit>>, interval: nat, j: nat)
    requires AllKnown(components, mcus) && j == 0
    ensures CutAt(components, tables, mcus, interval, j, 0)
  {
    assert mcus[0..] == mcus;
    assert [] + Segments(components, tables, mcus, interval, j) == Segments(components, tables, mcus, interval, j);
  }

  lemma NextMarker(components: seq<Component>, tables: Tables, mcus: seq<seq<Unit>>, interval: nat, i: nat, j: nat,
                   k: nat, next: nat)
    requires AllKnown(components, mcus) && interval > 0 && k == i * interval && next == k + interval < |mcus|
             && j == i + 1
    requires CutAt(components, tables, mcus, interval, i, k)
    ensures CutAt(components, tables, mcus, interval, j, next)
  {
    OneMore(components, tables, mcus, interval, SegmentsTo(components, tables, mcus, interval, i), i, k, next);
  }

  /** Before every MCU k > 0 that the interval divides stands the marker RST(k / interval - 1 mod 8), and
      what stands before it are the segments of `interval` MCUs each and the markers between them. */
  lemma {:induction false} MarkersAre(components: seq<Component>, tables: Tables, mcus: seq<seq<Unit>>, interval: nat,
                                      j: nat, k: nat)
    requires AllKnown(components, mcus) && interval > 0 && k == j * interval && (k == 0 || k < |mcus|)
    ensures CutAt(components, tables, mcus, interval, j, k)
    decreases j
  {
    if j == 0 {
      NoMarkers(components, tables, mcus, interval, j);
    } else {
      var i, before := OneLess(j, k, interval);
      MarkersAre(components, tables, mcus, interval, i, before);
      NextMarker(components, tables, mcus, interval, i, j, before, k);
    }
  }

  lemma MarkerBefore(components: seq<Component>, tables: Tables, mcus: seq<seq<Unit>>, interval: nat, j: nat, k: nat)
    returns (before: seq<byte>)
    requires AllKnown(components, mcus) && interval > 0 && j > 0 && k == j * interval && k < |mcus|
    ensures Segments(components, tables, mcus, interval, 0)
         == before + [0xFF, 0xD0 + (j - 1) % 8] + Segments(components, tables, mcus[k..], interval, j)
  {
    MarkersAre(components, tables, mcus, interval, j, k);
    before := SegmentsTo(components, tables, mcus, interval, j - 1)
              + OwnBytes(components, tables, SegmentMcus(mcus, interval, j - 1));
  }

  lemma IntervalOf(k: nat, interval: nat) returns (j: nat)
    requires interval > 0 && k > 0 && k % interval == 0
    ensures j == k / interval && j > 0 && k == j * interval
  {
    var q, r := Quotient(k, interval);
    j := q;
  }

  /** The two bytes before MCU k, which the interval divides, are 0xFF and 0xD0 + (k / interval - 1) mod 8, and
      the scan of the MCUs from k on follows them. */
  lemma MarkerBytes(components: seq<Component>, tables: Tables, mcus: seq<seq<Unit>>, interval: nat, k: nat)
    returns (before: seq<byte>)
    requires AllKnown(components, mcus) && interval > 0 && 0 < k < |mcus| && k % interval == 0
    ensures k / interval > 0
    ensures Segments(components, tables, mcus, interval, 0)
         == before + [0xFF, 0xD0 + (k / interval - 1) % 8]
            + Segments(components, tables, mcus[k..], interval, k / interval)
  {
    var j := IntervalOf(k, interval);
    before := MarkerBefore(components, tables, mcus, interval, j, k);
  }

  /** The whole scan: behind the last marker is one segment, with the MCUs that are left. */
  lemma ScanIs(components: seq<Component>, tables: Tables, mcus: seq<seq<Unit>>, interval: nat, j: nat)
    requires AllKnown(components, mcus) && interval > 0 && mcus != [] && j == (|mcus| - 1) / interval
    ensures Segments(components, tables, mcus, interval, 0)
         == SegmentsTo(components, tables, mcus, interval, j)
            + OwnBytes(components, tables, SegmentMcus(mcus, interval, j))
  {
    var q, r := Quotient(|mcus| - 1, interval);
    MarkersAre(components, tables, mcus, interval, j, q * interval);
    LeftOver(components, tables, mcus, interval, j, q * interval);
  }

  lemma LeftOver(components: seq<Component>, tables: Tables, mcus: seq<seq<Unit>>, interval: nat, j: nat, k: nat)
    requires AllKnown(components, mcus) && k == j * interval && k < |mcus| <= k + interval
    ensures Segments(components, tables, mcus[k..], interval, j)
         == OwnBytes(components, tables, SegmentMcus(mcus, interval, j))
  {
    var left := mcus[k..];
    assert SegmentMcus(mcus, interval, j) == left by {
      SegmentMcusAre(mcus, interval, j, k);
      AllThere(left, interval);
    }
    LastSegment(components, tables, left, interval, j);
  }

  lemma AllThere(left: seq<seq<Unit>>, interval: nat)
    requires |left| <= interval
    ensures left[..Min(interval, |left|)] == left
  {
  }

  lemma LastSegment(components: seq<Component>, tables: Tables, left: seq<seq<Unit>>, interval: nat, s: nat)
    requires AllKnown(components, left) && |left| <= interval
    ensures Segments(components, tables, left, interval, s) == OwnBytes(components, tables, left)
  {
    SegmentsAre(components, tables, left, interval, s);
    assert left[..|left|] == left;
    assert OwnBytes(components, tables, left) + [] == OwnBytes(components, tables, left);
  }

  // ---------------------------------------------------------------- counting down to a restart

  /** What is to go in the segment that the next MCU is in. */
  function Open(interval: nat, toGo: nat): nat
  {
    if Due(interval, toGo) then interval else toGo
  }

  /** How many restarts there are up to the next MCU, if there were `count` before. */
  function Restarts(interval: nat, toGo: nat, count: nat): nat
  {
    if Due(interval, toGo) then count + 1 else count
  }

  /** The counters behind an MCU. */
  method CountMcu(interval: nat, toGo: nat, restarts: nat, ghost count: nat) returns (toGo': nat, restarts': nat)
    requires toGo <= interval && restarts == count % 8
    ensures toGo' == CountDown(Open(interval, toGo)) <= interval && restarts' == Restarts(interval, toGo, count) % 8
  {
    toGo', restarts' := toGo, restarts;
    if interval > 0 {
      if toGo' == 0 {
        toGo' := interval;
        SameMarker(restarts, count);
        restarts' := (restarts + 1) % 8;
      }
      toGo' := toGo' - 1;
    }
  }

  // ---------------------------------------------------------------- the default tables

  ghost predicate HasSpec(t: HuffmanTable, lengths: Lengths, values: seq<byte>)
  {
    ValidTable(t) && t.length == lengths && t.values == values
  }

  /** The tables of an encoder that has not optimised any. */
  ghost predicate AreDefault(tables: Tables)
  {
    && HasSpec(tables[0].dc, DEFAULT_LUMA_DC_CODE_LENGTHS, DEFAULT_DC_VALUES)
    && HasSpec(tables[0].ac, DEFAULT_LUMA_AC_CODE_LENGTHS, DEFAULT_LUMA_AC_VALUES)
    && HasSpec(tables[1].dc, DEFAULT_CHROMA_DC_CODE_LENGTHS, DEFAULT_DC_VALUES)
    && HasSpec(tables[1].ac, DEFAULT_CHROMA_AC_CODE_LENGTHS, DEFAULT_CHROMA_AC_VALUES)
  }

  method NewDefaultTables() returns (tables: Tables)
    ensures AreDefault(tables)
  {
    DefaultDcTables();
    DefaultAcTables();
    var lumaDc := NewHuffmanTable(DEFAULT_LUMA_DC_CODE_LENGTHS, DEFAULT_DC_VALUES);
    var lumaAc := NewHuffmanTable(DEFAULT_LUMA_AC_CODE_LENGTHS, DEFAULT_LUMA_AC_VALUES);
    var chromaDc := NewHuffmanTable(DEFAULT_CHROMA_DC_CODE_LENGTHS, DEFAULT_DC_VALUES);
    var chromaAc := NewHuffmanTable(DEFAULT_CHROMA_AC_CODE_LENGTHS, DEFAULT_CHROMA_AC_VALUES);
    tables := [TablePair(lumaDc, lumaAc), TablePair(chromaDc, chromaAc)];
  }

  /** There is one set of default tables. */
  lemma DefaultDetermined(a: Tables, b: Tables)
    requires AreDefault(a) && AreDefault(b)
    ensures a == b
  {
    TableDetermined(a[0].dc, b[0].dc);
    TableDetermined(a[0].ac, b[0].ac);
    TableDetermined(a[1].dc, b[1].dc);
    TableDetermined(a[1].ac, b[1].ac);
  }

  // ---------------------------------------------------------------- the encoder

  class Encoder {
    const writer: JfifWriter
    const components: seq<Component>
    var huffmanTables: Tables

    constructor (writer: JfifWriter, components: seq<Component>)
      requires writer.Valid() && writer.written == []
      ensures Valid() && this.writer == writer && this.components == components && AreDefault(huffmanTables)
    {
      var tables := NewDefaultTables();
      this.writer, this.components, huffmanTables := writer, components, tables;
    }

    ghost predicate Valid()
      reads this, writer
    {
      ValidTables(huffmanTables) && writer.Valid() && writer.written == []
    }

    function MaxTables(): nat
    {
      if |components| < 2 then |components| else 2
    }

    /** Makes both classes of every table for the blocks. */
    method OptimizeHuffmanTableInterleaved(blocks: seq<Unit>)
      requires Valid() && Known(components, blocks)
      requires forall t :: 0 <= t < MaxTables() ==> Tabulable(components, t, blocks)
      modifies this`huffmanTables
      ensures Valid()
      ensures AllOptimized(components, huffmanTables, MaxTables(), blocks)
      ensures AllBest(components, huffmanTables, MaxTables(), blocks)
      ensures forall t :: MaxTables() <= t < 2 ==> huffmanTables[t] == old(huffmanTables[t])
    {
      for table := 0 to MaxTables()
        invariant ValidTables(huffmanTables)
        invariant AllOptimized(components, huffmanTables, table, blocks)
        invariant forall t :: table <= t < 2 ==> huffmanTables[t] == old(huffmanTables[t])
      {
        var pair := OptimizedPair(components, table, blocks);
        ghost var before := huffmanTables;
        huffmanTables := huffmanTables[table := pair];
        OneMorePair(components, before, huffmanTables, table, blocks);
      }
      AllOptimizedAreBest(components, huffmanTables, MaxTables(), blocks);
    }

    method WriteUnit(u: Unit, preds: Predictions) returns (prevDc: Predictions)
      requires ValidTables(huffmanTables) && writer.Valid() && u.component < |components|
      requires UnitCovered(components, huffmanTables, u, preds)
      modifies writer
      ensures writer.Valid() && writer.start == old(writer.start) && prevDc == After(preds, u)
      ensures writer.written == old(writer.written) + UnitBits(components, huffmanTables, u, preds)
    {
      var component := components[u.component];
      writer.WriteBlock(u.block, preds[u.component],
                        huffmanTables[component.dcTable].dc, huffmanTables[component.acTable].ac);
      prevDc := After(preds, u);
    }

    /** Writes blocks into the open segment and returns the predictions behind them. */
    method WriteUnits(units: seq<Unit>, preds: Predictions) returns (prevDc: Predictions)
      requires ValidTables(huffmanTables) && writer.Valid() && Known(components, units)
      requires Covered(components, huffmanTables, units, preds)
      modifies writer
      ensures writer.Valid() && writer.start == old(writer.start) && prevDc == AfterAll(preds, units)
      ensures writer.written == old(writer.written) + ScanBits(components, huffmanTables, units, preds)
    {
      prevDc := preds;
      ghost var all := old(writer.written) + ScanBits(components, huffmanTables, units, preds);
      assert units[0..] == units;
      for i := 0 to |units|
        invariant writer.Valid() && writer.start == old(writer.start)
        invariant AfterAll(prevDc, units[i..]) == AfterAll(preds, units)
        invariant Covered(components, huffmanTables, units[i..], prevDc)
        invariant all == writer.written + ScanBits(components, huffmanTables, units[i..], prevDc)
      {
        NextUnitBits(components, huffmanTables, units, i, prevDc, writer.written);
        prevDc := WriteUnit(units[i], prevDc);
      }
      NoMoreUnits(components, huffmanTables, units, prevDc, writer.written);
    }

    /** Pass 2: writes the blocks with the current tables and ends the segment. */
    method WriteBlocks(blocks: seq<Unit>)
      requires Valid() && Known(components, blocks)
      requires Covered(components, huffmanTables, blocks, NO_PREDICTIONS)
      modifies writer
      ensures Valid()
      ensures writer.out == old(writer.out) + EntropyBytes(ScanBits(components, huffmanTables, blocks, NO_PREDICTIONS))
    {
      writer.StartSegment();
      ghost var all := ScanBits(components, huffmanTables, blocks, NO_PREDICTIONS);
      var prevDc := WriteUnits(blocks, NO_PREDICTIONS);
      assert [] + all == all;
      writer.FinalizeBitBuffer();
    }

    /** Both passes: tables made for the blocks, then the blocks. No prefix codes take fewer bits for the
        symbols of the blocks, and no other tables make the scan shorter, unless a code size had to be limited.
        A decoder with those tables reads exactly the blocks back, whatever marker follows. */
    method EncodeInterleavedOptimized(blocks: seq<Unit>)
      requires Valid() && Known(components, blocks) && TablesInUse(components, MaxTables())
      requires forall t :: 0 <= t < MaxTables() ==> Tabulable(components, t, blocks)
      modifies this`huffmanTables, writer
      ensures Valid()
      ensures AllOptimized(components, huffmanTables, MaxTables(), blocks)
      ensures AllBest(components, huffmanTables, MaxTables(), blocks)
      ensures AllLow(components, MaxTables(), blocks) ==>
                ShortestScan(components, huffmanTables, MaxTables(), blocks)
      ensures writer.out == old(writer.out) + EntropyBytes(ScanBits(components, huffmanTables, blocks, NO_PREDICTIONS))
      ensures InRange(blocks, NO_PREDICTIONS) ==>
                forall after | AtMarker(after) ::
                  DecodeSegment(components, huffmanTables, Order(blocks), writer.out[|old(writer.out)|..] + after)
                  == ScanData(AllDecoded(blocks), after)
    {
      OptimizeHuffmanTableInterleaved(blocks);
      OptimizedTablesCover(components, huffmanTables, MaxTables(), blocks);
      if AllLow(components, MaxTables(), blocks) {
        OptimizedIsShortest(components, huffmanTables, MaxTables(), blocks);
      }
      WriteBlocks(blocks);
      ghost var bytes := EntropyBytes(ScanBits(components, huffmanTables, blocks, NO_PREDICTIONS));
      assert writer.out[|old(writer.out)|..] == bytes;
      forall after | AtMarker(after) && InRange(blocks, NO_PREDICTIONS)
        ensures DecodeSegment(components, huffmanTables, Order(blocks), bytes + after)
             == ScanData(AllDecoded(blocks), after)
      {
        SegmentRoundTrip(components, huffmanTables, blocks, after);
      }
    }

    /** In the middle of a one-pass scan: `total` is what the sink holds in the end if exactly the
        MCUs are still to come. */
    ghost predicate Midway(mcus: seq<seq<Unit>>, interval: nat, toGo: nat, preds: Predictions, count: nat,
                           total: seq<byte>)
      reads this, writer
    {
      && writer.Valid() && ValidTables(huffmanTables) && toGo <= interval
      && StillToCome(components, huffmanTables, writer.start, writer.written, mcus, interval, toGo, preds, count, total)
    }

    ghost method StartScan(mcus: seq<seq<Unit>>, interval: nat)
      requires Valid() && AllKnown(components, mcus)
      requires McusCovered(components, huffmanTables, mcus, interval, interval, NO_PREDICTIONS)
      modifies writer`start, writer`flushed, writer`written
      ensures Midway(mcus, interval, interval, NO_PREDICTIONS, 0,
                     writer.out + Segments(components, huffmanTables, mcus, interval, 0))
    {
      writer.StartSegment();
      AtStart(components, huffmanTables, writer.start, mcus, interval, 0);
    }

    /** The restart marker, if one is due, and a fresh start behind it. */
    method WriteRestart(ghost mcus: seq<seq<Unit>>, interval: nat, toGo: nat, restarts: nat, preds: Predictions,
                        ghost count: nat, ghost total: seq<byte>)
      returns (prevDc: Predictions)
      requires Midway(mcus, interval, toGo, preds, count, total) && mcus != [] && restarts == count % 8
      modifies writer
      ensures Midway(mcus, interval, Open(interval, toGo), prevDc, Restarts(interval, toGo, count), total)
    {
      prevDc := preds;
      if interval > 0 && toGo == 0 {
        AtRestart(components, huffmanTables, writer.start, writer.written, mcus, interval, preds, count);
        SameMarker(restarts, count);
        writer.FinalizeBitBuffer();
        writer.Write(RestartMarker(restarts));
        prevDc := NO_PREDICTIONS;
      }
    }

    /** One MCU of the open segment. */
    method WriteOpenMcu(units: seq<Unit>, ghost mcus: seq<seq<Unit>>, ghost interval: nat, ghost toGo: nat,
                        preds: Predictions, ghost count: nat, ghost total: seq<byte>)
      returns (prevDc: Predictions)
      requires Midway(mcus, interval, toGo, preds, count, total) && !Due(interval, toGo)
      requires mcus != [] && units == mcus[0]
      modifies writer
      ensures Midway(mcus[1..], interval, CountDown(toGo), prevDc, count, total)
    {
      NextToCome(components, huffmanTables, writer.start, writer.written, mcus, interval, toGo, preds, count, total);
      prevDc := WriteUnits(units, preds);
    }

    /** One MCU, behind a restart marker if one is due. */
    method WriteMcu(units: seq<Unit>, ghost mcus: seq<seq<Unit>>, interval: nat, toGo: nat, restarts: nat,
                    preds: Predictions, ghost count: nat, ghost total: seq<byte>)
      returns (toGo': nat, restarts': nat, prevDc: Predictions)
      requires Midway(mcus, interval, toGo, preds, count, total) && restarts == count % 8
      requires mcus != [] && units == mcus[0]
      modifies writer
      ensures restarts' == Restarts(interval, toGo, count) % 8
      ensures Midway(mcus[1..], interval, toGo', prevDc, Restarts(interval, toGo, count), total)
    {
      prevDc := WriteRestart(mcus, interval, toGo, restarts, preds, count, total);
      prevDc := WriteOpenMcu(units, mcus, interval, Open(interval, toGo), prevDc, Restarts(interval, toGo, count),
                             total);
      toGo', restarts' := CountMcu(interval, toGo, restarts, count);
    }

    /** The end of the scan. */
    method EndScan(interval: nat, toGo: nat, preds: Predictions, ghost count: nat, ghost total: seq<byte>)
      requires Midway([], interval, toGo, preds, count, total)
      modifies writer
      ensures Valid() && writer.out == total
    {
      AtEnd(components, huffmanTables, writer.start, writer.written, interval, toGo, preds, count);
      writer.FinalizeBitBuffer();
    }
  }
}

/** Tables made from the tallies of pass 1: always valid, and with a code for all that pass 2 needs. */
module OptimizedTables {
  import opened Bits
  import opened EntropyCoding
  import opened HuffmanCode
  import opened HuffmanMerge
  import opened HuffmanOptimality
  import opened HuffmanOptimize
  import opened Scan
  import opened Tally

  // ---------------------------------------------------------------- tallies make valid tables

  /** Symbols the coder can produce: a category in the low four bits, or end of block, or a zero run. */
  predicate CodedSymbol(s: nat)
  {
    s % 16 != 0 || s == 0x00 || s == 0xF0
  }

  ghost predicate CodedSymbols(items: seq<Item>)
  {
    forall i :: 0 <= i < |items| ==> CodedSymbol(items[i].symbol)
  }

  /** At most as many AC items as coefficients, and at least one. */
  lemma {:induction false} AcItemsNumber(block: Block, k: nat, run: nat)
    requires 1 <= k <= 64
    ensures |AcItems(block, k, run)| <= 64 - k + (run + 15) / 16
    ensures run > 0 || k < 64 ==> AcItems(block, k, run) != []
    decreases 64 - k, run
  {
    if k == 64 {
    } else if block[k] == 0 {
      AcItemsNumber(block, k + 1, run + 1);
    } else if run > 15 {
      AcItemsNumber(block, k, run - 16);
    } else {
      AcItemsNumber(block, k + 1, 0);
    }
  }

  lemma {:induction false} AcItemsCoded(block: Block, k: nat, run: nat)
    requires 1 <= k <= 64 && Codable(block)
    ensures CodedSymbols(AcItems(block, k, run))
    decreases 64 - k, run
  {
    if k == 64 {
    } else if block[k] == 0 {
      AcItemsCoded(block, k + 1, run + 1);
    } else if run > 15 {
      AcItemsCoded(block, k, run - 16);
      CodedConcat([ZRL], AcItems(block, k, run - 16));
    } else {
      AcItemCoded(run, block[k]);
      AcItemsCoded(block, k + 1, 0);
      CodedConcat([AcItem(run, block[k])], AcItems(block, k + 1, 0));
    }
  }

  lemma SymbolCoded(run: nat, size: nat, symbol: nat)
    requires 0 < size < 16 && symbol == 16 * run + size
    ensures CodedSymbol(symbol)
  {
  }

  lemma AcItemCoded(run: nat, value: int16)
    requires run < 16 && value != 0 && value != -0x8000
    ensures CodedSymbol(AcItem(run, value).symbol)
  {
    ExtendGetCode(value);
    SymbolCoded(run, GetCode(value).0, AcItem(run, value).symbol);
  }

  lemma CodedConcat(a: seq<Item>, b: seq<Item>)
    requires CodedSymbols(a) && CodedSymbols(b)
    ensures CodedSymbols(a + b)
  {
  }

  lemma DcItemCoded(diff: int16)
    ensures CodedSymbols([DcItem(diff)])
  {
    ExtendGetCode(diff);
    SmallSymbol(GetCode(diff).0);
  }

  lemma SmallSymbol(size: nat)
    requires size < 16
    ensures CodedSymbol(size)
  {
  }

  lemma {:induction false} DcItemsShape(components: seq<Component>, t: nat, units: seq<Unit>, preds: Predictions)
    requires Known(components, units)
    ensures CodedSymbols(DcItems(components, t, units, preds))
    ensures |DcItems(components, t, units, preds)| <= |units|
    decreases |units|
  {
    if units != [] {
      DcItemCoded(Diff(units[0], preds));
      DcItemsShape(components, t, units[1..], After(preds, units[0]));
      CodedConcat(OwnDc(components, t, units[0], preds), DcItems(components, t, units[1..], After(preds, units[0])));
    }
  }

  lemma {:induction false} AcItemsOfShape(components: seq<Component>, t: nat, units: seq<Unit>)
    requires Known(components, units) && forall i :: 0 <= i < |units| ==> Codable(units[i].block)
    ensures CodedSymbols(AcItemsOf(components, t, units))
    ensures |AcItemsOf(components, t, units)| <= 63 * |units|
  {
    if units != [] {
      AcItemsNumber(units[0].block, 1, 0);
      AcItemsCoded(units[0].block, 1, 0);
      AcItemsOfShape(components, t, units[1..]);
      CodedConcat(OwnAc(components, t, units[0]), AcItemsOf(components, t, units[1..]));
    }
  }

  /** A table has items exactly when some block uses it. */
  lemma {:induction false} DcItemsExist(components: seq<Component>, t: nat, units: seq<Unit>, preds: Predictions)
    requires Known(components, units)
    ensures DcItems(components, t, units, preds) != []
            <==> exists i :: 0 <= i < |units| && HasDc(components, t, units[i])
    decreases |units|
  {
    if units != [] {
      DcItemsExist(components, t, units[1..], After(preds, units[0]));
      assert forall i :: 0 <= i < |units[1..]| ==> units[1..][i] == units[i + 1];
      assert forall i :: 1 <= i < |units| ==> units[i] == units[1..][i - 1];
    }
  }

  lemma {:induction false} AcItemsExist(components: seq<Component>, t: nat, units: seq<Unit>)
    requires Known(components, units)
    ensures AcItemsOf(components, t, units) != [] <==> exists i :: 0 <= i < |units| && HasAc(components, t, units[i])
  {
    if units != [] {
      AcItemsNumber(units[0].block, 1, 0);
      AcItemsExist(components, t, units[1..]);
      assert forall i :: 0 <= i < |units[1..]| ==> units[1..][i] == units[i + 1];
      assert forall i :: 1 <= i < |units| ==> units[i] == units[1..][i - 1];
    }
  }

  /** At most 242 symbols occur besides the reserved one. */
  lemma FewSymbols(items: seq<Item>)
    requires CodedSymbols(items)
    ensures NonZero(TallyOf(items)) <= 243
  {
    var f := TallyOf(items);
    TallyMeans(items);
    forall m | 1 <= m < 15 ensures f[16 * m] == 0 {
      NotCounted(items, 16 * m);
    }
    ZerosBelow(f, 15);
  }

  /** Each zero entry lowers the number of nonzero ones. */
  lemma {:induction false} ZerosBelow(f: seq<nat>, n: nat)
    requires |f| == SYMBOLS && 1 <= n <= 15 && forall m :: 1 <= m < n ==> f[16 * m] == 0
    ensures NonZero(f) <= SYMBOLS - (n - 1)
    decreases n
  {
    if n == 1 {
      NonZeroBound(f);
    } else {
      var g := f[16 * (n - 1) := 1];
      NonZeroUpdate(f, 16 * (n - 1), 1);
      ZerosBelow(g, n - 1);
    }
  }

  lemma {:induction false} NonZeroBound(f: seq<nat>)
    ensures NonZero(f) <= |f|
  {
    if f != [] {
      NonZeroBound(f[..|f| - 1]);
    }
  }

  /** Frequencies tallied from fewer than 9227464 items give a table. */
  lemma TallyOptimizable(items: seq<Item>)
    requires items != [] && CodedSymbols(items) && |items| < 9227464
    ensures Optimizable(TallyOf(items))
  {
    TallyMeans(items);
    FewSymbols(items);
    Counted(items, 0);
    var f := TallyOf(items);
    assert f[items[0].symbol] > 0;
    CodeSizesFit(f);
  }

  /** A table with a code for every tallied symbol covers the items. */
  lemma TallyCovers(t: HuffmanTable, items: seq<Item>)
    requires forall v: byte :: v in t.values <==> TallyOf(items)[v] > 0
    ensures Covers(t, items)
  {
    TallyMeans(items);
    forall i | 0 <= i < |items| ensures items[i].symbol in t.values {
      Counted(items, i);
    }
  }

  // ---------------------------------------------------------------- optimising the tables of a scan

  /** Every component uses a table that the scan optimises. */
  ghost predicate TablesInUse(components: seq<Component>, count: nat)
  {
    forall c :: 0 <= c < |components| ==> components[c].dcTable < count && components[c].acTable < count
  }

  /** The tallies for table t give a table: neither the sum nor a code size leaves its type. */
  ghost predicate Tabulable(components: seq<Component>, t: nat, blocks: seq<Unit>)
    requires Known(components, blocks)
  {
    && Optimizable(TallyOf(DcItems(components, t, blocks, NO_PREDICTIONS)))
    && Optimizable(TallyOf(AcItemsOf(components, t, blocks)))
  }

  /** Fewer than 146467 blocks, some of them coded with table t, are enough for that: any image of up
      to 1024 by 1024 pixels has at most 49152. */
  lemma SmallScan(components: seq<Component>, t: nat, blocks: seq<Unit>)
    requires Known(components, blocks) && |blocks| < 146467
    requires forall i :: 0 <= i < |blocks| ==> Codable(blocks[i].block)
    requires exists i :: 0 <= i < |blocks| && HasDc(components, t, blocks[i])
    requires exists i :: 0 <= i < |blocks| && HasAc(components, t, blocks[i])
    ensures Tabulable(components, t, blocks)
  {
    DcItemsShape(components, t, blocks, NO_PREDICTIONS);
    DcItemsExist(components, t, blocks, NO_PREDICTIONS);
    AcItemsOfShape(components, t, blocks);
    AcItemsExist(components, t, blocks);
    TallyOptimizable(DcItems(components, t, blocks, NO_PREDICTIONS));
    TallyOptimizable(AcItemsOf(components, t, blocks));
  }

  /** A table made for the frequencies: codes for the symbols that have one, sorted by their depths in the
      Huffman tree, one code short of full, and as long as the depths if the tree is at most 16 high. */
  ghost predicate TableFor(freq: seq<nat>, t: HuffmanTable)
    requires |freq| == SYMBOLS
  {
    && ValidTable(t)
    && (forall v: byte :: v in t.values <==> freq[v] > 0)
    && SortedBySize(TreeSizes(HuffmanTree(freq)), t.values)
    && (exists longest :: LacksOneCode(t.length, longest))
    && (Height(HuffmanTree(freq)) <= 16 ==>
          OneOfLongestDropped(TreeSizes(HuffmanTree(freq)), t.length, Height(HuffmanTree(freq))))
  }

  /** A pair of tables made for the tallies of the blocks. */
  ghost predicate OptimizedFor(pair: TablePair, components: seq<Component>, t: nat, blocks: seq<Unit>)
    requires Known(components, blocks)
  {
    && TableFor(TallyOf(DcItems(components, t, blocks, NO_PREDICTIONS)), pair.dc)
    && TableFor(TallyOf(AcItemsOf(components, t, blocks)), pair.ac)
  }

  /** The first `count` pairs are made for the blocks. */
  ghost predicate AllOptimized(components: seq<Component>, tables: Tables, count: nat, blocks: seq<Unit>)
    requires Known(components, blocks) && count <= 2
  {
    forall t :: 0 <= t < count ==> OptimizedFor(tables[t], components, t, blocks)
  }

  lemma OneMoreOptimized(components: seq<Component>, before: Tables, after: Tables, count: nat, blocks: seq<Unit>)
    requires Known(components, blocks) && count < 2
    requires AllOptimized(components, before, count, blocks) && OptimizedFor(after[count], components, count, blocks)
    requires forall t :: 0 <= t < 2 && t != count ==> after[t] == before[t]
    ensures AllOptimized(components, after, count + 1, blocks)
  {
  }

  lemma OneMoreValid(before: Tables, after: Tables, count: nat)
    requires count < 2 && ValidTables(before) && ValidTable(after[count].dc) && ValidTable(after[count].ac)
    requires forall t :: 0 <= t < 2 && t != count ==> after[t] == before[t]
    ensures ValidTables(after)
  {
  }

  /** A pair of tables for the next destination. */
  lemma OneMorePair(components: seq<Component>, before: Tables, after: Tables, count: nat, blocks: seq<Unit>)
    requires Known(components, blocks) && count < 2 && ValidTables(before)
    requires AllOptimized(components, before, count, blocks) && OptimizedFor(after[count], components, count, blocks)
    requires forall t :: 0 <= t < 2 && t != count ==> after[t] == before[t]
    ensures ValidTables(after) && AllOptimized(components, after, count + 1, blocks)
  {
    OptimizedValid(after[count], components, count, blocks);
    OneMoreValid(before, after, count);
    OneMoreOptimized(components, before, after, count, blocks);
  }

  lemma OptimizedValid(pair: TablePair, components: seq<Component>, t: nat, blocks: seq<Unit>)
    requires Known(components, blocks) && OptimizedFor(pair, components, t, blocks)
    ensures ValidTable(pair.dc) && ValidTable(pair.ac)
  {
  }

  lemma {:induction false} UnusedTable(components: seq<Component>, count: nat, t: nat, units: seq<Unit>,
                                       preds: Predictions)
    requires Known(components, units) && TablesInUse(components, count) && t >= count
    ensures DcItems(components, t, units, preds) == [] && AcItemsOf(components, t, units) == []
    decreases |units|
  {
    if units != [] {
      UnusedTable(components, count, t, units[1..], After(preds, units[0]));
    }
  }

  /** Tables optimised for the blocks have every code the blocks need. */
  lemma OptimizedTablesCover(components: seq<Component>, tables: Tables, count: nat, blocks: seq<Unit>)
    requires Known(components, blocks) && count <= 2 && TablesInUse(components, count)
    requires AllOptimized(components, tables, count, blocks)
    ensures Covered(components, tables, blocks, NO_PREDICTIONS)
  {
    forall t | 0 <= t < 2
      ensures Covers(tables[t].dc, DcItems(components, t, blocks, NO_PREDICTIONS))
      ensures Covers(tables[t].ac, AcItemsOf(components, t, blocks))
    {
      if t < count {
        TallyCovers(tables[t].dc, DcItems(components, t, blocks, NO_PREDICTIONS));
        TallyCovers(tables[t].ac, AcItemsOf(components, t, blocks));
      } else {
        UnusedTable(components, count, t, blocks, NO_PREDICTIONS);
      }
    }
    CoveredByTables(components, tables, blocks, NO_PREDICTIONS);
  }

  /** Tallies that give a table count at least one symbol. */
  lemma TabulableHasData(components: seq<Component>, t: nat, blocks: seq<Unit>)
    requires Known(components, blocks) && Tabulable(components, t, blocks)
    ensures exists i :: 0 <= i < |blocks| && HasDc(components, t, blocks[i])
    ensures exists i :: 0 <= i < |blocks| && HasAc(components, t, blocks[i])
  {
    TallyMeans(DcItems(components, t, blocks, NO_PREDICTIONS));
    TallyMeans(AcItemsOf(components, t, blocks));
    DcItemsExist(components, t, blocks, NO_PREDICTIONS);
    AcItemsExist(components, t, blocks);
  }

  /** What new_optimized promises of a tally. */
  lemma MadeForTally(items: seq<Item>, t: HuffmanTable, longest: nat)
    requires Optimizable(TallyOf(items)) && ValidTable(t) && LacksOneCode(t.length, longest)
    requires forall v: byte :: v in t.values <==> TallyOf(items)[v] > 0
    requires SortedBySize(TreeSizes(HuffmanTree(TallyOf(items))), t.values)
    requires Height(HuffmanTree(TallyOf(items))) <= 16 ==>
               OneOfLongestDropped(TreeSizes(HuffmanTree(TallyOf(items))), t.length, longest)
    ensures TableFor(TallyOf(items), t)
  {
    TallyMeans(items);
    if Height(HuffmanTree(TallyOf(items))) <= 16 {
      LongestIsHeight(TallyOf(items), t.length, longest);
    }
  }

  /** One round of the optimisation: the tables for one destination. The scan has data for them. */
  method OptimizedPair(components: seq<Component>, table: nat, blocks: seq<Unit>) returns (pair: TablePair)
    requires Known(components, blocks) && Tabulable(components, table, blocks)
    ensures OptimizedFor(pair, components, table, blocks)
  {
    var dcFreq, acFreq, hadDc, hadAc := CountSymbols(components, table, blocks);
    TabulableHasData(components, table, blocks);
    assert hadDc && hadAc;
    var dc, dcLongest := NewOptimized(dcFreq);
    MadeForTally(DcItems(components, table, blocks, NO_PREDICTIONS), dc, dcLongest);
    var ac, acLongest := NewOptimized(acFreq);
    MadeForTally(AcItemsOf(components, table, blocks), ac, acLongest);
    pair := TablePair(dc, ac);
  }
}

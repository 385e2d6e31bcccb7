/** How many bits a scan takes, symbol by symbol, and that no other tables take fewer than the optimised ones. */
module ScanCosts {
  import opened Bits
  import opened ByteStream
  import opened EntropyCoding
  import opened HuffmanCode
  import opened HuffmanMerge
  import opened HuffmanOptimality
  import opened HuffmanOptimize
  import opened OptimizedTables
  import opened PrefixCodes
  import opened Scan
  import opened Sequences
  import opened Tally

  // ---------------------------------------------------------------- the longest code of a table

  ghost function LongestEntry(lookup: seq<Entry>): (n: nat)
    ensures forall v :: 0 <= v < |lookup| ==> lookup[v].size <= n
    ensures n > 0 ==> exists v :: 0 <= v < |lookup| && lookup[v].size == n
  {
    if lookup == [] then 0
    else
      var n := LongestEntry(lookup[..|lookup| - 1]);
      if lookup[|lookup| - 1].size > n then lookup[|lookup| - 1].size else n
  }

  /** The length of the longest code: that of the code of ones that is never used, too. */
  ghost function Longest(t: HuffmanTable): nat
  {
    LongestEntry(t.lookup)
  }

  /** A deepest leaf has another beside it. */
  lemma {:induction false} AnotherDeepest(t: Tree, x: nat) returns (y: nat)
    requires t.Node? && Distinct(Leaves(t)) && x in Leaves(t) && DepthOf(t, x) == Height(t)
    ensures y in Leaves(t) && y != x && DepthOf(t, y) == Height(t)
  {
    DistinctParts(Leaves(t.left), Leaves(t.right));
    DepthAtMost(t.left, x);
    DepthAtMost(t.right, x);
    if x in Leaves(t.left) {
      if t.left.Node? {
        y := AnotherDeepest(t.left, x);
      } else {
        y := Leaves(t.right)[0];
      }
    } else if t.right.Node? {
      y := AnotherDeepest(t.right, x);
    } else {
      y := Leaves(t.left)[0];
    }
  }

  /** The longest code of an optimised table is as long as its tree is high. */
  lemma LongestOfTree(freq: seq<nat>, t: HuffmanTable, longest: nat)
    requires MadeFrom(freq, t, longest)
    ensures Longest(t) == longest
  {
    var tree := HuffmanTree(freq);
    LongestIsHeight(freq, t.length, longest);
    TableSizesAreDepths(freq, t, longest);
    ReservedIsDeepest(freq);
    HuffmanTreeLeaves(freq);
    var v :| 0 <= v < 256 && freq[v] > 0;
    assert v in Leaves(tree);
    if tree.Node? {
      var y := AnotherDeepest(tree, RESERVED);
      assert t.lookup[y].size == TreeSizes(tree)[y] == longest;
    }
    forall v: byte ensures t.lookup[v].size <= longest {
      DepthAtMost(tree, v);
    }
  }

  // ---------------------------------------------------------------- the best table for the frequencies

  /** Neither sizes that meet Kraft's inequality nor a prefix code take fewer bits than the table, with its
      longest code counted for the reserved symbol. */
  ghost predicate BestTable(freq: seq<nat>, t: HuffmanTable)
    requires |freq| == SYMBOLS
  {
    && (forall sizes, depth :: Kraft(freq, sizes, depth) ==>
          Cost(freq, TableSizes(t, Longest(t))) <= Cost(freq, sizes))
    && (forall codes :: PrefixCode(freq, codes) ==>
          Cost(freq, TableSizes(t, Longest(t))) <= Cost(freq, PrefixCodes.Lengths(codes)))
  }

  lemma MadeIsBest(freq: seq<nat>, t: HuffmanTable)
    requires Optimizable(freq) && freq[RESERVED] == 1 && TableFor(freq, t) && Height(HuffmanTree(freq)) <= 16
    ensures MadeFrom(freq, t, Longest(t)) && BestTable(freq, t)
  {
    LongestOfTree(freq, t, Height(HuffmanTree(freq)));
    forall sizes, depth | Kraft(freq, sizes, depth)
      ensures Cost(freq, TableSizes(t, Longest(t))) <= Cost(freq, sizes)
    {
      OptimizedTableIsOptimal(freq, t, Longest(t), sizes, depth);
    }
    forall codes | PrefixCode(freq, codes)
      ensures Cost(freq, TableSizes(t, Longest(t))) <= Cost(freq, PrefixCodes.Lengths(codes))
    {
      TableIsOptimal(freq, t, Longest(t), codes);
    }
  }

  /** Both tables of a pair are best for the symbols of the blocks, where the trees are at most 16 high. */
  ghost predicate BestPair(pair: TablePair, components: seq<Component>, t: nat, blocks: seq<Unit>)
    requires Known(components, blocks)
  {
    && (Low(DcItems(components, t, blocks, NO_PREDICTIONS)) ==>
          BestTable(TallyOf(DcItems(components, t, blocks, NO_PREDICTIONS)), pair.dc))
    && (Low(AcItemsOf(components, t, blocks)) ==> BestTable(TallyOf(AcItemsOf(components, t, blocks)), pair.ac))
  }

  /** No code size of the items has to be limited to 16 bits. */
  ghost predicate Low(items: seq<Item>)
  {
    Height(HuffmanTree(TallyOf(items))) <= 16
  }

  lemma FibFrom19(n: nat)
    requires n >= 19
    ensures Fib(n) >= 4181
  {
    var m := n - (n - 19);
    Fib19(m);
    FibMono(m, n);
  }

  lemma Fib19(n: nat)
    requires n == 19
    ensures Fib(n) == 4181
  {
    assert Fib(n - 18) == 1 && Fib(n - 17) == 1;
    assert Fib(n - 16) == 2 && Fib(n - 15) == 3 && Fib(n - 14) == 5 && Fib(n - 13) == 8 && Fib(n - 12) == 13;
    assert Fib(n - 11) == 21 && Fib(n - 10) == 34 && Fib(n - 9) == 55 && Fib(n - 8) == 89 && Fib(n - 7) == 144;
    assert Fib(n - 6) == 233 && Fib(n - 5) == 377 && Fib(n - 4) == 610 && Fib(n - 3) == 987 && Fib(n - 2) == 1597;
    assert Fib(n - 1) == 2584;
  }

  /** Fewer than 4180 items never have one. */
  lemma FewItemsLow(items: seq<Item>)
    requires |items| < 4180
    ensures Low(items)
  {
    TallyMeans(items);
    HuffmanTreeHeight(TallyOf(items));
    if Height(HuffmanTree(TallyOf(items))) > 16 {
      FibFrom19(Height(HuffmanTree(TallyOf(items))) + 2);
    }
  }

  lemma OptimizedIsBest(pair: TablePair, components: seq<Component>, t: nat, blocks: seq<Unit>)
    requires Known(components, blocks) && Tabulable(components, t, blocks)
    requires OptimizedFor(pair, components, t, blocks)
    ensures BestPair(pair, components, t, blocks)
  {
    var dcItems, acItems := DcItems(components, t, blocks, NO_PREDICTIONS), AcItemsOf(components, t, blocks);
    TallyMeans(dcItems);
    TallyMeans(acItems);
    if Low(dcItems) {
      MadeIsBest(TallyOf(dcItems), pair.dc);
    }
    if Low(acItems) {
      MadeIsBest(TallyOf(acItems), pair.ac);
    }
  }

  ghost predicate AllBest(components: seq<Component>, tables: Tables, count: nat, blocks: seq<Unit>)
    requires Known(components, blocks) && count <= 2
  {
    forall t :: 0 <= t < count ==> BestPair(tables[t], components, t, blocks)
  }

  lemma AllOptimizedAreBest(components: seq<Component>, tables: Tables, count: nat, blocks: seq<Unit>)
    requires Known(components, blocks) && count <= 2 && AllOptimized(components, tables, count, blocks)
    requires forall t :: 0 <= t < count ==> Tabulable(components, t, blocks)
    ensures AllBest(components, tables, count, blocks)
  {
    forall t | 0 <= t < count ensures BestPair(tables[t], components, t, blocks) {
      OptimizedIsBest(tables[t], components, t, blocks);
    }
  }

  // ---------------------------------------------------------------- the bits of the items of one table

  /** The value bits behind the symbols: the same whatever the tables. */
  function ValueBits(items: seq<Item>): nat
  {
    if items == [] then 0 else items[0].size + ValueBits(items[1..])
  }

  ghost function Counts(items: seq<Item>): (r: seq<nat>)
    ensures |r| == SYMBOLS
  {
    seq(SYMBOLS, s requires 0 <= s < SYMBOLS => CountSymbol(items, s))
  }

  lemma TalliedAreCounts(items: seq<Item>)
    ensures Tallied(TallyOf(items)) == Counts(items)
  {
    TallyMeans(items);
    NotCounted(items, RESERVED);
  }

  lemma OneMoreCounted(freq: seq<nat>, sizes: seq<nat>, s: nat)
    requires |freq| == |sizes| && s < |freq|
    ensures Cost(freq[s := freq[s] + 1], sizes) == Cost(freq, sizes) + sizes[s]
  {
    var p := freq[s] * sizes[s] + sizes[s];
    NextTimes(sizes[s], freq[s]);
    assert Products(freq[s := freq[s] + 1], sizes) == Products(freq, sizes)[s := p];
    SumUpdate(Products(freq, sizes), s, p);
  }

  /** The bits of items: the cost of their counts, and their value bits. */
  lemma {:induction false} ItemsCost(t: HuffmanTable, items: seq<Item>, sizes: seq<nat>)
    requires |sizes| == SYMBOLS && forall v: byte :: sizes[v] == t.lookup[v].size
    ensures |ItemsBits(t, items)| == Cost(Counts(items), sizes) + ValueBits(items)
  {
    if items == [] {
      AllZero(Products(Counts(items), sizes));
    } else {
      var s, rest := items[0].symbol, Counts(items[1..]);
      ItemsCost(t, items[1..], sizes);
      assert Counts(items) == rest[s := rest[s] + 1];
      OneMoreCounted(rest, sizes, s);
    }
  }

  /** Each count of pass 1 is the number of look-ups of that symbol: the items take the size of each symbol's
      code as often as it was tallied, and their value bits. */
  lemma ItemsCostTallied(t: HuffmanTable, items: seq<Item>, longest: nat)
    ensures |ItemsBits(t, items)| == Cost(Tallied(TallyOf(items)), TableSizes(t, longest)) + ValueBits(items)
  {
    TalliedAreCounts(items);
    ItemsCost(t, items, TableSizes(t, longest));
  }

  // ---------------------------------------------------------------- the codes of any other table

  lemma NotAllOnes(code: nat, size: nat, n: nat)
    requires code < Pow2(size) - 1 && size <= n
    ensures !(BitsOf(code, size) <= Ones(n))
  {
    if BitsOf(code, size) <= Ones(n) {
      assert BitsOf(code, size) == Ones(size);
      ValueOfBitsOf(code, size);
      ModSmall(code, Pow2(size));
      ValueOfOnes(size);
    }
  }

  lemma {:induction false} ValueOfOnes(n: nat)
    ensures ValueOf(Ones(n)) == Pow2(n) - 1
  {
    if n > 0 {
      ValueOfOnes(n - 1);
      assert Ones(n)[..n - 1] == Ones(n - 1);
    }
  }

  /** The codes of a table, with as many ones as its longest code for the reserved symbol. */
  ghost function TableCodes(t: HuffmanTable): (r: seq<Code>)
    ensures |r| == SYMBOLS
  {
    seq(SYMBOLS, x requires 0 <= x < SYMBOLS => if x < 256 then SymbolBits(t, x) else Ones(Longest(t)))
  }

  /** They are a prefix code of any symbols that the table covers. */
  lemma TableIsPrefixCode(freq: seq<nat>, t: HuffmanTable)
    requires |freq| == SYMBOLS && ValidTable(t) && forall v: byte :: freq[v] > 0 ==> v in t.values
    requires exists v: byte :: freq[v] > 0
    ensures PrefixCode(freq, TableCodes(t)) && PrefixCodes.Lengths(TableCodes(t)) == TableSizes(t, Longest(t))
  {
    var codes, n := TableCodes(t), Longest(t);
    var w: byte :| freq[w] > 0;
    CodeShape(t, w);
    forall x, y | 0 <= x < SYMBOLS && 0 <= y < SYMBOLS && x != y && freq[x] > 0 && freq[y] > 0
      ensures !(codes[x] <= codes[y])
    {
      if x < 256 && y < 256 {
        PrefixFree(t, x, y);
      } else if x < 256 {
        CodeShape(t, x);
        NotAllOnes(t.lookup[x].code, t.lookup[x].size, n);
      } else {
        CodeShape(t, y);
        OnesNotBefore(t.lookup[y].code, t.lookup[y].size, n);
      }
    }
  }

  lemma OnesNotBefore(code: nat, size: nat, n: nat)
    requires code < Pow2(size) - 1 && size <= n
    ensures !(Ones(n) <= BitsOf(code, size))
  {
    if Ones(n) <= BitsOf(code, size) {
      assert BitsOf(code, size)[..n] == BitsOf(code, size);
      NotAllOnes(code, size, n);
    }
  }

  lemma TalliedCovered(items: seq<Item>, t: HuffmanTable)
    requires Covers(t, items)
    ensures forall v: byte :: TallyOf(items)[v] > 0 ==> v in t.values
  {
    TallyMeans(items);
    forall v: byte | TallyOf(items)[v] > 0 ensures v in t.values {
      if forall k :: 0 <= k < |items| ==> items[k].symbol != v {
        NotCounted(items, v);
      }
    }
  }

  /** The table made for the tally of some items against any other table that covers them. */
  lemma ItemsBest(items: seq<Item>, t: HuffmanTable, other: HuffmanTable)
    requires Optimizable(TallyOf(items)) && TableFor(TallyOf(items), t) && Low(items)
    requires ValidTable(other) && Covers(other, items)
    ensures |ItemsBits(t, items)| + Longest(t) <= |ItemsBits(other, items)| + Longest(other)
  {
    var freq := TallyOf(items);
    TallyMeans(items);
    TalliedCovered(items, other);
    MadeIsBest(freq, t);
    TableIsPrefixCode(freq, other);
    TableIsOptimal(freq, t, Longest(t), TableCodes(other));
    ItemsCostTallied(t, items, Longest(t));
    ItemsCostTallied(other, items, Longest(other));
  }

  // ---------------------------------------------------------------- the bits of a scan

  lemma {:induction false} ItemsBitsLength(t: HuffmanTable, a: seq<Item>, b: seq<Item>)
    ensures |ItemsBits(t, a + b)| == |ItemsBits(t, a)| + |ItemsBits(t, b)|
  {
    if a == [] {
      assert a + b == b;
    } else {
      ItemsBitsLength(t, a[1..], b);
      assert (a + b)[1..] == a[1..] + b;
    }
  }

  function DcBits(components: seq<Component>, tables: Tables, t: TableIndex, units: seq<Unit>, preds: Predictions): nat
    requires Known(components, units)
  {
    |ItemsBits(tables[t].dc, DcItems(components, t, units, preds))|
  }

  function AcBits(components: seq<Component>, tables: Tables, t: TableIndex, units: seq<Unit>): nat
    requires Known(components, units)
  {
    |ItemsBits(tables[t].ac, AcItemsOf(components, t, units))|
  }

  /** One unit adds the bits of its own items. */
  lemma OneMoreUnit(components: seq<Component>, tables: Tables, t: TableIndex, units: seq<Unit>, preds: Predictions)
    requires Known(components, units) && units != []
    ensures DcBits(components, tables, t, units, preds)
         == |ItemsBits(tables[t].dc, OwnDc(components, t, units[0], preds))|
            + DcBits(components, tables, t, units[1..], After(preds, units[0]))
    ensures AcBits(components, tables, t, units)
         == |ItemsBits(tables[t].ac, OwnAc(components, t, units[0]))| + AcBits(components, tables, t, units[1..])
  {
    ItemsBitsLength(tables[t].dc, OwnDc(components, t, units[0], preds),
                    DcItems(components, t, units[1..], After(preds, units[0])));
    ItemsBitsLength(tables[t].ac, OwnAc(components, t, units[0]), AcItemsOf(components, t, units[1..]));
  }

  lemma UnitBitsLength(components: seq<Component>, tables: Tables, u: Unit, preds: Predictions)
    requires u.component < |components|
    ensures |UnitBits(components, tables, u, preds)|
         == |ItemsBits(tables[0].dc, OwnDc(components, 0, u, preds))|
            + |ItemsBits(tables[1].dc, OwnDc(components, 1, u, preds))|
            + |ItemsBits(tables[0].ac, OwnAc(components, 0, u))| + |ItemsBits(tables[1].ac, OwnAc(components, 1, u))|
  {
    var c := components[u.component];
    var i := DcItem(Diff(u, preds));
    assert ItemsBits(tables[c.dcTable].dc, [i]) == ItemBits(tables[c.dcTable].dc, i) + [];
  }

  /** The bits of a scan are those of the items of its tables. */
  lemma {:induction false} ScanBitsSplit(components: seq<Component>, tables: Tables, units: seq<Unit>,
                                         preds: Predictions)
    requires Known(components, units)
    ensures |ScanBits(components, tables, units, preds)|
         == DcBits(components, tables, 0, units, preds) + DcBits(components, tables, 1, units, preds)
            + AcBits(components, tables, 0, units) + AcBits(components, tables, 1, units)
    decreases |units|
  {
    if units != [] {
      OneMoreUnit(components, tables, 0, units, preds);
      OneMoreUnit(components, tables, 1, units, preds);
      UnitBitsLength(components, tables, units[0], preds);
      ScanBitsSplit(components, tables, units[1..], After(preds, units[0]));
    }
  }

  /** The value bits of a scan. */
  function ScanValueBits(components: seq<Component>, units: seq<Unit>): nat
    requires Known(components, units)
  {
    ValueBits(DcItems(components, 0, units, NO_PREDICTIONS)) + ValueBits(DcItems(components, 1, units, NO_PREDICTIONS))
    + ValueBits(AcItemsOf(components, 0, units)) + ValueBits(AcItemsOf(components, 1, units))
  }

  ghost function CodeBits(t: HuffmanTable, items: seq<Item>): nat
  {
    Cost(Tallied(TallyOf(items)), TableSizes(t, Longest(t)))
  }

  /** What pass 2 writes, from the tallies of pass 1 alone: each count times the size of its code, and value
      bits that do not depend on the tables. */
  lemma ScanBitsCost(components: seq<Component>, tables: Tables, blocks: seq<Unit>)
    requires Known(components, blocks)
    ensures |ScanBits(components, tables, blocks, NO_PREDICTIONS)|
         == CodeBits(tables[0].dc, DcItems(components, 0, blocks, NO_PREDICTIONS))
            + CodeBits(tables[1].dc, DcItems(components, 1, blocks, NO_PREDICTIONS))
            + CodeBits(tables[0].ac, AcItemsOf(components, 0, blocks))
            + CodeBits(tables[1].ac, AcItemsOf(components, 1, blocks)) + ScanValueBits(components, blocks)
  {
    ScanBitsSplit(components, tables, blocks, NO_PREDICTIONS);
    ItemsCostTallied(tables[0].dc, DcItems(components, 0, blocks, NO_PREDICTIONS), Longest(tables[0].dc));
    ItemsCostTallied(tables[1].dc, DcItems(components, 1, blocks, NO_PREDICTIONS), Longest(tables[1].dc));
    ItemsCostTallied(tables[0].ac, AcItemsOf(components, 0, blocks), Longest(tables[0].ac));
    ItemsCostTallied(tables[1].ac, AcItemsOf(components, 1, blocks), Longest(tables[1].ac));
  }

  // ---------------------------------------------------------------- no other tables make a shorter scan

  /** The longest codes of the pairs in use, together. */
  ghost function LongestCodes(tables: Tables, count: nat): nat
  {
    LongestPair(tables, count, 0) + LongestPair(tables, count, 1)
  }

  ghost function LongestPair(tables: Tables, count: nat, t: TableIndex): nat
  {
    if t < count then Longest(tables[t].dc) + Longest(tables[t].ac) else 0
  }

  /** No valid tables with a code for every item make the scan shorter by more than their longest codes are
      longer. */
  ghost predicate ShortestScan(components: seq<Component>, tables: Tables, count: nat, blocks: seq<Unit>)
    requires Known(components, blocks)
  {
    forall other: Tables :: ValidTables(other) && AllCovered(components, other, blocks, NO_PREDICTIONS) ==>
      |ScanBits(components, tables, blocks, NO_PREDICTIONS)| + LongestCodes(tables, count)
      <= |ScanBits(components, other, blocks, NO_PREDICTIONS)| + LongestCodes(other, count)
  }

  /** No code size of the tables in use has to be limited to 16 bits. */
  ghost predicate AllLow(components: seq<Component>, count: nat, blocks: seq<Unit>)
    requires Known(components, blocks)
  {
    forall t :: 0 <= t < count ==>
      Low(DcItems(components, t, blocks, NO_PREDICTIONS)) && Low(AcItemsOf(components, t, blocks))
  }

  function PairBits(components: seq<Component>, tables: Tables, t: TableIndex, blocks: seq<Unit>): nat
    requires Known(components, blocks)
  {
    DcBits(components, tables, t, blocks, NO_PREDICTIONS) + AcBits(components, tables, t, blocks)
  }

  lemma PairIsShortest(components: seq<Component>, tables: Tables, t: TableIndex, blocks: seq<Unit>, other: Tables)
    requires Known(components, blocks) && Tabulable(components, t, blocks)
    requires OptimizedFor(tables[t], components, t, blocks)
    requires Low(DcItems(components, t, blocks, NO_PREDICTIONS)) && Low(AcItemsOf(components, t, blocks))
    requires ValidTables(other) && AllCovered(components, other, blocks, NO_PREDICTIONS)
    ensures PairBits(components, tables, t, blocks) + Longest(tables[t].dc) + Longest(tables[t].ac)
         <= PairBits(components, other, t, blocks) + Longest(other[t].dc) + Longest(other[t].ac)
  {
    ItemsBest(DcItems(components, t, blocks, NO_PREDICTIONS), tables[t].dc, other[t].dc);
    ItemsBest(AcItemsOf(components, t, blocks), tables[t].ac, other[t].ac);
  }

  lemma OtherPair(components: seq<Component>, tables: Tables, count: nat, t: TableIndex, blocks: seq<Unit>,
                  other: Tables)
    requires Known(components, blocks) && count <= 2 && TablesInUse(components, count)
    requires t < count ==> Tabulable(components, t, blocks)
    requires AllOptimized(components, tables, count, blocks) && AllLow(components, count, blocks)
    requires ValidTables(other) && AllCovered(components, other, blocks, NO_PREDICTIONS)
    ensures PairBits(components, tables, t, blocks) + LongestPair(tables, count, t)
         <= PairBits(components, other, t, blocks) + LongestPair(other, count, t)
  {
    if t < count {
      PairIsShortest(components, tables, t, blocks, other);
    } else {
      UnusedTable(components, count, t, blocks, NO_PREDICTIONS);
    }
  }

  lemma OtherIsNoShorter(components: seq<Component>, tables: Tables, count: nat, blocks: seq<Unit>, other: Tables)
    requires Known(components, blocks) && count <= 2 && TablesInUse(components, count)
    requires forall t :: 0 <= t < count ==> Tabulable(components, t, blocks)
    requires AllOptimized(components, tables, count, blocks) && AllLow(components, count, blocks)
    requires ValidTables(other) && AllCovered(components, other, blocks, NO_PREDICTIONS)
    ensures |ScanBits(components, tables, blocks, NO_PREDICTIONS)| + LongestCodes(tables, count)
         <= |ScanBits(components, other, blocks, NO_PREDICTIONS)| + LongestCodes(other, count)
  {
    ScanBitsSplit(components, tables, blocks, NO_PREDICTIONS);
    ScanBitsSplit(components, other, blocks, NO_PREDICTIONS);
    OtherPair(components, tables, count, 0, blocks, other);
    OtherPair(components, tables, count, 1, blocks, other);
  }

  /** The optimised tables make the scan shortest, unless a code size had to be limited. */
  lemma OptimizedIsShortest(components: seq<Component>, tables: Tables, count: nat, blocks: seq<Unit>)
    requires Known(components, blocks) && count <= 2 && TablesInUse(components, count)
    requires forall t :: 0 <= t < count ==> Tabulable(components, t, blocks)
    requires AllOptimized(components, tables, count, blocks) && AllLow(components, count, blocks)
    ensures ShortestScan(components, tables, count, blocks)
  {
    forall other: Tables | ValidTables(other) && AllCovered(components, other, blocks, NO_PREDICTIONS)
      ensures |ScanBits(components, tables, blocks, NO_PREDICTIONS)| + LongestCodes(tables, count)
           <= |ScanBits(components, other, blocks, NO_PREDICTIONS)| + LongestCodes(other, count)
    {
      OtherIsNoShorter(components, tables, count, blocks, other);
    }
  }
}

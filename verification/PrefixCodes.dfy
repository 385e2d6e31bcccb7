/** Prefix codes, and how good the optimised tables are among them. */
module PrefixCodes {
  import opened Bits
  import opened HuffmanCode
  import opened HuffmanMerge
  import opened HuffmanOptimality
  import opened HuffmanOptimize

  type Code = seq<bool>

  /** No code of a symbol in use is a prefix of the code of another. */
  ghost predicate PrefixCode(freq: seq<nat>, codes: seq<Code>)
  {
    && |codes| == |freq|
    && forall x, y :: 0 <= x < |freq| && 0 <= y < |freq| && x != y && freq[x] > 0 && freq[y] > 0 ==>
         !(codes[x] <= codes[y])
  }

  ghost function Lengths(codes: seq<Code>): (r: seq<nat>)
    ensures |r| == |codes|
  {
    seq(|codes|, x requires 0 <= x < |codes| => |codes[x]|)
  }

  function MaxLength(codes: seq<Code>): (n: nat)
    ensures forall x :: 0 <= x < |codes| ==> |codes[x]| <= n
  {
    if codes == [] then 0
    else
      var n := MaxLength(codes[..|codes| - 1]);
      if |codes[|codes| - 1]| > n then |codes[|codes| - 1]| else n
  }

  // ---------------------------------------------------------------- Kraft's inequality

  /** The share of the strings of `depth` bits that a code takes if it lies below a prefix. */
  ghost function TakingBelow(f: nat, code: Code, depth: nat, p: Code): nat
  {
    if p <= code then Taking(f, |code|, depth) else 0
  }

  ghost function TakingsBelow(freq: seq<nat>, codes: seq<Code>, depth: nat, p: Code): (r: seq<nat>)
    requires |codes| == |freq|
    ensures |r| == |freq|
  {
    seq(|freq|, x requires 0 <= x < |freq| => TakingBelow(freq[x], codes[x], depth, p))
  }

  lemma {:induction false} SumAdd(a: seq<nat>, b: seq<nat>, c: seq<nat>)
    requires |a| == |b| == |c| && forall x :: 0 <= x < |a| ==> c[x] == a[x] + b[x]
    ensures Sum(c) == Sum(a) + Sum(b)
  {
    if a != [] {
      SumAdd(a[..|a| - 1], b[..|a| - 1], c[..|a| - 1]);
    }
  }

  lemma OneBit(p: Code, code: Code, b: bool)
    requires p + [b] <= code
    ensures p <= code && |p| < |code| && code[|p|] == b
  {
    assert code[..|p| + 1] == p + [b];
    assert code[..|p|] == (p + [b])[..|p|];
  }

  /** What is longer than a prefix goes on with one bit or the other. */
  lemma NextBit(p: Code, code: Code)
    requires p != code
    ensures p <= code <==> p + [false] <= code || p + [true] <= code
    ensures !(p + [false] <= code && p + [true] <= code)
  {
    if p <= code {
      assert code[..|p|] == p && code[..|code|] == code;
      assert code[..|p| + 1] == p + [code[|p|]];
      assert code[|p|] == true || code[|p|] == false;
      assert p + [code[|p|]] <= code;
    }
    if p + [false] <= code {
      OneBit(p, code, false);
    }
    if p + [true] <= code {
      OneBit(p, code, true);
    }
  }

  /** The codes below a prefix that is itself a code. */
  lemma OnlyItself(freq: seq<nat>, codes: seq<Code>, depth: nat, x: nat)
    requires PrefixCode(freq, codes) && x < |freq| && freq[x] > 0 && |codes[x]| <= depth
    ensures Sum(TakingsBelow(freq, codes, depth, codes[x])) == Pow2(depth - |codes[x]|)
  {
    var t := TakingsBelow(freq, codes, depth, codes[x]);
    SumUpdate(t, x, 0);
    AllZero(t[x := 0]);
  }

  /** The codes below a prefix share the strings below it. */
  lemma {:induction false} BelowPrefix(freq: seq<nat>, codes: seq<Code>, depth: nat, p: Code)
    requires PrefixCode(freq, codes) && |p| <= depth
    requires forall x :: 0 <= x < |freq| && freq[x] > 0 ==> |codes[x]| <= depth
    ensures Sum(TakingsBelow(freq, codes, depth, p)) <= Pow2(depth - |p|)
    decreases depth - |p|
  {
    if exists x :: 0 <= x < |freq| && freq[x] > 0 && codes[x] == p {
      var x :| 0 <= x < |freq| && freq[x] > 0 && codes[x] == p;
      OnlyItself(freq, codes, depth, x);
    } else if |p| == depth {
      NothingDeeper(freq, codes, depth, p);
    } else {
      BelowPrefix(freq, codes, depth, p + [false]);
      BelowPrefix(freq, codes, depth, p + [true]);
      BothBits(freq, codes, depth, p);
    }
  }

  lemma NothingDeeper(freq: seq<nat>, codes: seq<Code>, depth: nat, p: Code)
    requires |codes| == |freq| && |p| == depth
    requires forall x :: 0 <= x < |freq| && freq[x] > 0 ==> |codes[x]| <= depth && codes[x] != p
    ensures Sum(TakingsBelow(freq, codes, depth, p)) == 0
  {
    AllZero(TakingsBelow(freq, codes, depth, p));
  }

  lemma BothBits(freq: seq<nat>, codes: seq<Code>, depth: nat, p: Code)
    requires |codes| == |freq| && forall x :: 0 <= x < |freq| && freq[x] > 0 ==> codes[x] != p
    ensures Sum(TakingsBelow(freq, codes, depth, p))
         == Sum(TakingsBelow(freq, codes, depth, p + [false])) + Sum(TakingsBelow(freq, codes, depth, p + [true]))
  {
    var a, b := TakingsBelow(freq, codes, depth, p + [false]), TakingsBelow(freq, codes, depth, p + [true]);
    var c := TakingsBelow(freq, codes, depth, p);
    forall x | 0 <= x < |freq| ensures c[x] == a[x] + b[x] {
      if freq[x] > 0 {
        NextBit(p, codes[x]);
      }
    }
    SumAdd(a, b, c);
  }

  /** The lengths of every prefix code meet Kraft's inequality. */
  lemma KraftOfPrefixCode(freq: seq<nat>, codes: seq<Code>, depth: nat)
    requires PrefixCode(freq, codes)
    requires forall x :: 0 <= x < |freq| && freq[x] > 0 ==> |codes[x]| <= depth
    ensures Kraft(freq, Lengths(codes), depth)
  {
    BelowPrefix(freq, codes, depth, []);
    assert TakingsBelow(freq, codes, depth, []) == Takings(freq, Lengths(codes), depth);
  }

  // ---------------------------------------------------------------- a tree is a prefix code

  /** The way from the root to a symbol: false to the left, true to the right. */
  ghost function PathTo(t: Tree, x: nat): (p: Code)
    ensures |p| == DepthOf(t, x)
  {
    match t
    case Leaf(_) => []
    case Node(l, r) => if x in Leaves(l) then [false] + PathTo(l, x) else [true] + PathTo(r, x)
  }

  lemma {:induction false} PathsApart(t: Tree, x: nat, y: nat)
    requires x in Leaves(t) && y in Leaves(t) && x != y
    ensures !(PathTo(t, x) <= PathTo(t, y))
  {
    match t
    case Leaf(_) =>
    case Node(l, r) =>
      if x in Leaves(l) && y in Leaves(l) {
        PathsApart(l, x, y);
        PrefixTail(false, PathTo(l, x), PathTo(l, y));
      } else if x !in Leaves(l) && y !in Leaves(l) {
        PathsApart(r, x, y);
        PrefixTail(true, PathTo(r, x), PathTo(r, y));
      } else {
        OtherBit(PathTo(t, x), PathTo(t, y));
      }
  }

  lemma PrefixTail(b: bool, p: Code, q: Code)
    ensures [b] + p <= [b] + q ==> p <= q
  {
    if [b] + p <= [b] + q {
      assert ([b] + q)[..|p| + 1] == [b] + p;
      forall k | 0 <= k < |p| ensures p[k] == q[k] {
        assert ([b] + p)[k + 1] == ([b] + q)[..|p| + 1][k + 1];
      }
    }
  }

  lemma OtherBit(p: Code, q: Code)
    requires |p| > 0 && |q| > 0 && p[0] != q[0]
    ensures !(p <= q)
  {
  }

  ghost function TreeCode(t: Tree): (r: seq<Code>)
    ensures |r| == SYMBOLS
  {
    seq(SYMBOLS, (x: nat) => if x in Leaves(t) then PathTo(t, x) else [])
  }

  /** The Huffman tree is a prefix code of the symbols in use, as long as their depths. */
  lemma HuffmanTreeIsPrefixCode(freq: seq<nat>)
    requires |freq| == SYMBOLS && !NoneLeft(freq, -1)
    ensures PrefixCode(freq, TreeCode(HuffmanTree(freq)))
    ensures Lengths(TreeCode(HuffmanTree(freq))) == TreeSizes(HuffmanTree(freq))
  {
    var t := HuffmanTree(freq);
    HuffmanTreeLeaves(freq);
    forall x, y | 0 <= x < SYMBOLS && 0 <= y < SYMBOLS && x != y && freq[x] > 0 && freq[y] > 0
      ensures !(TreeCode(t)[x] <= TreeCode(t)[y])
    {
      PathsApart(t, x, y);
    }
  }

  /** Figure K.1 is optimal: no prefix code of the symbols takes fewer bits than the tree's. */
  lemma HuffmanCodeIsOptimal(freq: seq<nat>, codes: seq<Code>)
    requires |freq| == SYMBOLS && !NoneLeft(freq, -1) && PrefixCode(freq, codes)
    ensures PrefixCode(freq, TreeCode(HuffmanTree(freq)))
    ensures Cost(freq, Lengths(TreeCode(HuffmanTree(freq)))) <= Cost(freq, Lengths(codes))
  {
    HuffmanTreeIsPrefixCode(freq);
    KraftOfPrefixCode(freq, codes, MaxLength(codes));
    HuffmanTreeIsOptimal(freq, Lengths(codes), MaxLength(codes));
  }

  // ---------------------------------------------------------------- the optimised tables

  /** A table and the size of its reserved code, as new_optimized makes them when no length has to be
      limited to 16 bits. */
  ghost predicate MadeFrom(freq: seq<nat>, t: HuffmanTable, longest: nat)
  {
    && Optimizable(freq) && freq[RESERVED] == 1 && Height(HuffmanTree(freq)) <= 16
    && ValidTable(t) && SortedBySize(TreeSizes(HuffmanTree(freq)), t.values)
    && OneOfLongestDropped(TreeSizes(HuffmanTree(freq)), t.length, longest)
  }

  /** The frequencies that were tallied, without the reserved symbol's. */
  function Tallied(freq: seq<nat>): (r: seq<nat>)
    requires |freq| == SYMBOLS
    ensures |r| == SYMBOLS
  {
    freq[RESERVED := 0]
  }

  lemma CostSplit(freq: seq<nat>, sizes: seq<nat>)
    requires |freq| == |sizes| == SYMBOLS && freq[RESERVED] == 1
    ensures Cost(freq, sizes) == Cost(Tallied(freq), sizes) + sizes[RESERVED]
  {
    assert Products(Tallied(freq), sizes) == Products(freq, sizes)[RESERVED := 0];
    SumUpdate(Products(freq, sizes), RESERVED, 0);
  }

  /** No prefix code takes fewer bits for the tallied symbols and one reserved one; so for the tallied
      symbols alone the table is best among the codes whose reserved code is no longer than its own. */
  lemma TableIsOptimal(freq: seq<nat>, t: HuffmanTable, longest: nat, codes: seq<Code>)
    requires MadeFrom(freq, t, longest) && PrefixCode(freq, codes)
    ensures Cost(freq, TableSizes(t, longest)) <= Cost(freq, Lengths(codes))
    ensures Cost(Tallied(freq), TableSizes(t, longest)) + longest
         <= Cost(Tallied(freq), Lengths(codes)) + |codes[RESERVED]|
  {
    KraftOfPrefixCode(freq, codes, MaxLength(codes));
    OptimizedTableIsOptimal(freq, t, longest, Lengths(codes), MaxLength(codes));
    CostSplit(freq, TableSizes(t, longest));
    CostSplit(freq, Lengths(codes));
  }

  // ---------------------------------------------------------------- the tallied symbols alone

  lemma SomeTallied(freq: seq<nat>)
    requires Optimizable(freq)
    ensures !NoneLeft(Tallied(freq), -1) && IsLeast(Tallied(freq), -1, Least(Tallied(freq), -1))
  {
    var v :| 0 <= v < 256 && freq[v] > 0;
    assert Tallied(freq)[v] > 0;
  }

  /** The bits of a Huffman tree of the tallied symbols alone, whose rarest symbol moves down a level to
      make room for the reserved code. */
  ghost function LeastBits(freq: seq<nat>): nat
    requires Optimizable(freq)
  {
    SomeTallied(freq);
    MergeCost(InitialState(Tallied(freq))) + Tallied(freq)[Least(Tallied(freq), -1)]
  }

  lemma TakingDeepest(f: seq<nat>, sizes: seq<nat>, x: nat, depth: nat)
    requires |f| == |sizes| && x < |f| && f[x] > 0 && sizes[x] <= depth
    ensures Sum(Takings(f, sizes, depth)) >= Pow2(depth - sizes[x])
  {
    SumUpdate(Takings(f, sizes, depth), x, 0);
  }

  /** With room to spare, the deepest symbol can move up, so the code costs more than the merges by the
      least frequency. */
  lemma {:induction false} RoomToSpare(f: seq<nat>, sizes: seq<nat>, depth: nat, v: nat)
    requires |f| == |sizes| == SYMBOLS && IsLeast(f, -1, v)
    requires forall x :: 0 <= x < SYMBOLS && f[x] > 0 ==> sizes[x] <= depth
    requires Sum(Takings(f, sizes, depth)) < Pow2(depth)
    ensures MergeCost(InitialState(f)) + f[v] <= Cost(f, sizes)
    decreases depth
  {
    if exists x: nat :: Deep(f, sizes, depth, x) {
      var x: nat :| Deep(f, sizes, depth, x);
      TakingDeepest(f, sizes, x, depth);
      OneUp(f, sizes, depth, x);
      MergeIsOptimal(InitialState(f), sizes[x := depth - 1], depth);
    } else {
      NotDeep(f, sizes, depth, v);
      TakingsHalf(f, sizes, depth);
      RoomToSpare(f, sizes, depth - 1, v);
    }
  }

  lemma OneUp(f: seq<nat>, sizes: seq<nat>, depth: nat, x: nat)
    requires |f| == |sizes| && Deep(f, sizes, depth, x) && forall y :: 0 <= y < |f| && f[y] > 0 ==> sizes[y] <= depth
    requires Sum(Takings(f, sizes, depth)) < Pow2(depth) && depth > 0
    ensures Kraft(f, sizes[x := depth - 1], depth)
    ensures Cost(f, sizes[x := depth - 1]) + f[x] == Cost(f, sizes)
  {
    TakingsUpdate(f, sizes, depth, x, depth - 1);
    assert Taking(f[x], depth, depth) == Pow2(0) && Taking(f[x], depth - 1, depth) == Pow2(1);
    SizeChange(f, sizes[x := depth - 1], x, depth - 1);
    assert sizes[x := depth - 1][x := depth] == sizes;
  }

  /** One more bit for a symbol. */
  lemma SizeChange(f: seq<nat>, sizes: seq<nat>, x: nat, size: nat)
    requires |f| == |sizes| && x < |f| && sizes[x] == size
    ensures Cost(f, sizes[x := size + 1]) == Cost(f, sizes) + f[x]
  {
    ProductsUpdate(f, sizes, x, size + 1);
    NextTimes(f[x], size);
  }

  lemma NotDeep(f: seq<nat>, sizes: seq<nat>, depth: nat, v: nat)
    requires |f| == |sizes| && v < |f| && f[v] > 0 && forall x :: 0 <= x < |f| && f[x] > 0 ==> sizes[x] <= depth
    requires forall x: nat :: !Deep(f, sizes, depth, x)
    ensures depth > 0 && forall x :: 0 <= x < |f| && f[x] > 0 ==> sizes[x] < depth
  {
    forall x | 0 <= x < |f| && f[x] > 0 ensures sizes[x] < depth {
      assert !Deep(f, sizes, depth, x);
    }
    assert sizes[v] < depth;
  }

  /** No prefix code of the symbols and the reserved one takes fewer bits for the tallied symbols. */
  lemma TalliedAtLeast(freq: seq<nat>, codes: seq<Code>)
    requires Optimizable(freq) && freq[RESERVED] == 1 && PrefixCode(freq, codes)
    ensures LeastBits(freq) <= Cost(Tallied(freq), Lengths(codes))
  {
    var sizes, depth := Lengths(codes), MaxLength(codes);
    KraftOfPrefixCode(freq, codes, depth);
    var all := Takings(freq, sizes, depth);
    assert Takings(Tallied(freq), sizes, depth) == all[RESERVED := 0];
    SumUpdate(all, RESERVED, 0);
    SomeTallied(freq);
    RoomToSpare(Tallied(freq), sizes, depth, Least(Tallied(freq), -1));
  }

  /** The Huffman tree of the tallied symbols, the code of the rarest one split to make room for the
      reserved code. */
  ghost function SplitCode(freq: seq<nat>): (r: seq<Code>)
    requires Optimizable(freq)
    ensures |r| == SYMBOLS
  {
    SomeTallied(freq);
    var v := Least(Tallied(freq), -1);
    var tree := TreeCode(HuffmanTree(Tallied(freq)));
    tree[v := tree[v] + [false]][RESERVED := tree[v] + [true]]
  }

  lemma SplitApart(p: Code, q: Code, b: bool, c: bool)
    ensures !(p <= q) && !(q <= p) ==> !(p + [b] <= q) && !(q <= p + [b])
    ensures b != c ==> !(p + [b] <= p + [c])
  {
    if p + [b] <= q {
      OneBit(p, q, b);
    }
    if q <= p + [b] {
      assert (p + [b])[..|q|] == q;
      if |q| <= |p| {
        assert (p + [b])[..|q|] == p[..|q|];
      } else {
        assert q[..|p|] == p;
      }
    }
    assert (p + [b])[|p|] == b && (p + [c])[|p|] == c;
  }

  lemma SplitIsPrefixCode(freq: seq<nat>)
    requires Optimizable(freq)
    ensures PrefixCode(freq, SplitCode(freq))
  {
    SomeTallied(freq);
    var v := Least(Tallied(freq), -1);
    var tree, codes := TreeCode(HuffmanTree(Tallied(freq))), SplitCode(freq);
    HuffmanTreeIsPrefixCode(Tallied(freq));
    forall x, y | 0 <= x < SYMBOLS && 0 <= y < SYMBOLS && x != y && freq[x] > 0 && freq[y] > 0
      ensures !(codes[x] <= codes[y])
    {
      SplitPair(Tallied(freq), tree, v, x, y);
    }
  }

  /** Neither of two codes is a prefix of the other once the code of v is split with the reserved one. */
  lemma SplitPair(f: seq<nat>, tree: seq<Code>, v: nat, x: nat, y: nat)
    requires |f| == SYMBOLS && PrefixCode(f, tree) && v < 256 && f[v] > 0 && x < SYMBOLS && y < SYMBOLS && x != y
    requires x == RESERVED || f[x] > 0
    requires y == RESERVED || f[y] > 0
    requires f[RESERVED] == 0
    ensures var codes := tree[v := tree[v] + [false]][RESERVED := tree[v] + [true]]; !(codes[x] <= codes[y])
  {
    var x', y' := if x == RESERVED then v else x, if y == RESERVED then v else y;
    SplitApart(tree[v], tree[y'], false, true);
    SplitApart(tree[v], tree[y'], true, false);
    SplitApart(tree[v], tree[x'], false, true);
    SplitApart(tree[v], tree[x'], true, false);
    if x' != y' {
      assert !(tree[x'] <= tree[y']) && !(tree[y'] <= tree[x']);
    }
  }

  lemma SplitLengths(tree: seq<Code>, sizes: seq<nat>, v: nat)
    requires |tree| == SYMBOLS && Lengths(tree) == sizes && v < SYMBOLS
    ensures Lengths(tree[v := tree[v] + [false]][RESERVED := tree[v] + [true]])
         == sizes[v := sizes[v] + 1][RESERVED := sizes[v] + 1]
  {
    var codes := tree[v := tree[v] + [false]][RESERVED := tree[v] + [true]];
    forall x | 0 <= x < SYMBOLS
      ensures Lengths(codes)[x] == sizes[v := sizes[v] + 1][RESERVED := sizes[v] + 1][x]
    {
      assert sizes[x] == |tree[x]|;
    }
  }

  lemma UnusedSize(f: seq<nat>, sizes: seq<nat>, x: nat, size: nat)
    requires |f| == |sizes| && x < |f| && f[x] == 0
    ensures Cost(f, sizes[x := size]) == Cost(f, sizes)
  {
    ProductsUpdate(f, sizes, x, size);
  }

  /** That code takes just the least bits. */
  lemma SplitCost(freq: seq<nat>)
    requires Optimizable(freq)
    ensures Cost(Tallied(freq), Lengths(SplitCode(freq))) == LeastBits(freq)
  {
    SomeTallied(freq);
    var f, v := Tallied(freq), Least(Tallied(freq), -1);
    var sizes := TreeSizes(HuffmanTree(f));
    HuffmanTreeIsPrefixCode(f);
    HuffmanTreeCost(f);
    SplitLengths(TreeCode(HuffmanTree(f)), sizes, v);
    SizeChange(f, sizes, v, sizes[v]);
    UnusedSize(f, sizes[v := sizes[v] + 1], RESERVED, sizes[v] + 1);
  }

  lemma TableBits(freq: seq<nat>, t: HuffmanTable, longest: nat)
    requires MadeFrom(freq, t, longest)
    ensures Cost(Tallied(freq), TableSizes(t, longest)) + Height(HuffmanTree(freq)) == MergeCost(InitialState(freq))
  {
    TableSizesAreDepths(freq, t, longest);
    LongestIsHeight(freq, t.length, longest);
    assert TableSizes(t, longest) == TreeSizes(HuffmanTree(freq));
    assert freq[RESERVED] > 0;
    HuffmanTreeCost(freq);
    CostSplit(freq, TableSizes(t, longest));
  }

  /** The least number of bits for the tallied symbols is LeastBits, and the table takes that many exactly
      when the merge with the reserved symbol costs as much as the one without it, the least frequency
      and the height of the tree together. */
  lemma TalliedExactly(freq: seq<nat>, t: HuffmanTable, longest: nat)
    requires MadeFrom(freq, t, longest)
    ensures (forall codes :: PrefixCode(freq, codes) ==>
               Cost(Tallied(freq), TableSizes(t, longest)) <= Cost(Tallied(freq), Lengths(codes)))
       <==> MergeCost(InitialState(freq)) == LeastBits(freq) + Height(HuffmanTree(freq))
  {
    var bits := Cost(Tallied(freq), TableSizes(t, longest));
    TableBits(freq, t, longest);
    SplitIsPrefixCode(freq);
    SplitCost(freq);
    TableSizesAreDepths(freq, t, longest);
    assert LeastBits(freq) <= bits by {
      HuffmanTreeIsPrefixCode(freq);
      TalliedAtLeast(freq, TreeCode(HuffmanTree(freq)));
      assert TableSizes(t, longest) == TreeSizes(HuffmanTree(freq));
    }
    if bits == LeastBits(freq) {
      forall codes | PrefixCode(freq, codes) ensures bits <= Cost(Tallied(freq), Lengths(codes)) {
        TalliedAtLeast(freq, codes);
      }
    }
  }

  /** The table is never further from the least number of bits than its reserved code is shorter than the
      one of the split code. */
  lemma TalliedExcess(freq: seq<nat>, t: HuffmanTable, longest: nat)
    requires MadeFrom(freq, t, longest)
    ensures Cost(Tallied(freq), TableSizes(t, longest)) + longest <= LeastBits(freq) + |SplitCode(freq)[RESERVED]|
  {
    SplitIsPrefixCode(freq);
    SplitCost(freq);
    TableIsOptimal(freq, t, longest, SplitCode(freq));
  }

  // ---------------------------------------------------------------- a table that is not best

  lemma MergeStep(s: State, v1: nat, v2: nat)
    requires Shaped(s) && v1 < SYMBOLS && v2 < SYMBOLS && IsLeast(s.freq, -1, v1) && IsLeast(s.freq, v1, v2)
    ensures MergeAll(s) == MergeAll(MergePair(s, v1, v2))
    ensures MergeCost(s) == s.freq[v1] + s.freq[v2] + MergeCost(MergePair(s, v1, v2))
  {
    LeastUnique(s.freq, -1, v1);
    LeastUnique(s.freq, v1, v2);
  }

  lemma MergeEnd(s: State, v: nat)
    requires Shaped(s) && v < SYMBOLS && s.freq[v] > 0 && NoneLeft(s.freq, v)
    ensures MergeAll(s) == s && MergeCost(s) == 0 && Least(s.freq, -1) == v
  {
    LeastUnique(s.freq, -1, v);
    LeastNone(s.freq, v);
  }

  /** Five symbols in use at most: 0 to 3 and the reserved one. */
  function Five(a: nat, b: nat, c: nat, d: nat, r: nat): (freq: seq<nat>)
    ensures |freq| == SYMBOLS
  {
    seq(SYMBOLS, x => if x == 0 then a else if x == 1 then b else if x == 2 then c else if x == 3 then d
                      else if x == RESERVED then r else 0)
  }

  lemma FiveUpdate(a: nat, b: nat, c: nat, d: nat, r: nat, x: nat)
    ensures Five(a, b, c, d, r)[0 := x] == Five(x, b, c, d, r) && Five(a, b, c, d, r)[1 := x] == Five(a, x, c, d, r)
    ensures Five(a, b, c, d, r)[2 := x] == Five(a, b, x, d, r) && Five(a, b, c, d, r)[3 := x] == Five(a, b, c, x, r)
    ensures Five(a, b, c, d, r)[RESERVED := x] == Five(a, b, c, d, x)
  {
  }

  predicate NotBefore(x: nat, k: int, least: nat, v: int, skip: int)
  {
    k == skip || x == 0 || least < x || (least == x && k <= v)
  }

  lemma FiveLeast(a: nat, b: nat, c: nat, d: nat, r: nat, skip: int, v: nat)
    requires v < SYMBOLS && v != skip && Five(a, b, c, d, r)[v] > 0
    requires var least := Five(a, b, c, d, r)[v];
             && NotBefore(a, 0, least, v, skip) && NotBefore(b, 1, least, v, skip) && NotBefore(c, 2, least, v, skip)
             && NotBefore(d, 3, least, v, skip) && NotBefore(r, RESERVED, least, v, skip)
    ensures IsLeast(Five(a, b, c, d, r), skip, v)
  {
  }

  /** One merge of a state in which only these symbols have a frequency. */
  lemma FiveStep(s: State, f: seq<nat>, v1: nat, v2: nat, next: seq<nat>)
    requires Shaped(s) && s.freq == f && v1 < SYMBOLS && v2 < SYMBOLS && IsLeast(f, -1, v1) && IsLeast(f, v1, v2)
    requires next == f[v1 := f[v1] + f[v2]][v2 := 0]
    ensures var after := MergePair(s, v1, v2);
            && Shaped(after) && after.freq == next
            && after.forest == s.forest[v1 := Node(s.forest[v1], s.forest[v2])]
            && MergeAll(s) == MergeAll(after) && MergeCost(s) == f[v1] + f[v2] + MergeCost(after)
  {
    MergeStep(s, v1, v2);
  }

  lemma FiveNumbers(a: nat, b: nat, c: nat, d: nat, r: nat)
    requires a > 0 && b > 0 && c > 0 && d > 0 && r > 0
    ensures NonZero(Five(a, b, c, d, r)) == 5 && Sum(Five(a, b, c, d, r)) == a + b + c + d + r
  {
    AllZero(Five(0, 0, 0, 0, 0));
    FiveUpdate(0, 0, 0, 0, 0, a);
    NonZeroUpdate(Five(0, 0, 0, 0, 0), 0, a);
    SumUpdate(Five(0, 0, 0, 0, 0), 0, a);
    FiveUpdate(a, 0, 0, 0, 0, b);
    NonZeroUpdate(Five(a, 0, 0, 0, 0), 1, b);
    SumUpdate(Five(a, 0, 0, 0, 0), 1, b);
    FiveUpdate(a, b, 0, 0, 0, c);
    NonZeroUpdate(Five(a, b, 0, 0, 0), 2, c);
    SumUpdate(Five(a, b, 0, 0, 0), 2, c);
    FiveUpdate(a, b, c, 0, 0, d);
    NonZeroUpdate(Five(a, b, c, 0, 0), 3, d);
    SumUpdate(Five(a, b, c, 0, 0), 3, d);
    FiveUpdate(a, b, c, d, 0, r);
    NonZeroUpdate(Five(a, b, c, d, 0), RESERVED, r);
    SumUpdate(Five(a, b, c, d, 0), RESERVED, r);
  }

  lemma MergeFirst(s: State)
    requires Shaped(s) && s.freq == Five(1, 1, 2, 3, 1)
    ensures var after := MergePair(s, RESERVED, 1);
            && Shaped(after) && after.freq == Five(1, 0, 2, 3, 2)
            && after.forest == s.forest[RESERVED := Node(s.forest[RESERVED], s.forest[1])]
            && MergeAll(s) == MergeAll(after) && MergeCost(s) == 2 + MergeCost(after)
  {
    FiveLeast(1, 1, 2, 3, 1, -1, RESERVED);
    FiveLeast(1, 1, 2, 3, 1, RESERVED, 1);
    FiveUpdate(1, 1, 2, 3, 1, 2);
    FiveUpdate(1, 1, 2, 3, 2, 0);
    FiveStep(s, Five(1, 1, 2, 3, 1), RESERVED, 1, Five(1, 0, 2, 3, 2));
  }

  lemma MergeSecond(s: State)
    requires Shaped(s) && s.freq == Five(1, 0, 2, 3, 2)
    ensures var after := MergePair(s, 0, RESERVED);
            && Shaped(after) && after.freq == Five(3, 0, 2, 3, 0)
            && after.forest == s.forest[0 := Node(s.forest[0], s.forest[RESERVED])]
            && MergeAll(s) == MergeAll(after) && MergeCost(s) == 3 + MergeCost(after)
  {
    FiveLeast(1, 0, 2, 3, 2, -1, 0);
    FiveLeast(1, 0, 2, 3, 2, 0, RESERVED);
    FiveUpdate(1, 0, 2, 3, 2, 3);
    FiveUpdate(3, 0, 2, 3, 2, 0);
    FiveStep(s, Five(1, 0, 2, 3, 2), 0, RESERVED, Five(3, 0, 2, 3, 0));
  }

  lemma MergeThird(s: State)
    requires Shaped(s) && s.freq == Five(3, 0, 2, 3, 0)
    ensures var after := MergePair(s, 2, 3);
            && Shaped(after) && after.freq == Five(3, 0, 5, 0, 0)
            && after.forest == s.forest[2 := Node(s.forest[2], s.forest[3])]
            && MergeAll(s) == MergeAll(after) && MergeCost(s) == 5 + MergeCost(after)
  {
    FiveLeast(3, 0, 2, 3, 0, -1, 2);
    FiveLeast(3, 0, 2, 3, 0, 2, 3);
    FiveUpdate(3, 0, 2, 3, 0, 5);
    FiveUpdate(3, 0, 5, 3, 0, 0);
    FiveStep(s, Five(3, 0, 2, 3, 0), 2, 3, Five(3, 0, 5, 0, 0));
  }

  lemma MergeFourth(s: State)
    requires Shaped(s) && s.freq == Five(3, 0, 5, 0, 0)
    ensures var after := MergePair(s, 0, 2);
            && Shaped(after) && after.freq == Five(8, 0, 0, 0, 0)
            && after.forest == s.forest[0 := Node(s.forest[0], s.forest[2])]
            && MergeAll(s) == MergeAll(after) && MergeCost(s) == 8 + MergeCost(after)
  {
    FiveLeast(3, 0, 5, 0, 0, -1, 0);
    FiveLeast(3, 0, 5, 0, 0, 0, 2);
    FiveUpdate(3, 0, 5, 0, 0, 8);
    FiveUpdate(8, 0, 5, 0, 0, 0);
    FiveStep(s, Five(3, 0, 5, 0, 0), 0, 2, Five(8, 0, 0, 0, 0));
  }

  lemma TalliedFirst(s: State)
    requires Shaped(s) && s.freq == Five(1, 1, 2, 3, 0)
    ensures var after := MergePair(s, 1, 0);
            && Shaped(after) && after.freq == Five(0, 2, 2, 3, 0)
            && after.forest == s.forest[1 := Node(s.forest[1], s.forest[0])]
            && MergeAll(s) == MergeAll(after) && MergeCost(s) == 2 + MergeCost(after)
  {
    FiveLeast(1, 1, 2, 3, 0, -1, 1);
    FiveLeast(1, 1, 2, 3, 0, 1, 0);
    FiveUpdate(1, 1, 2, 3, 0, 2);
    FiveUpdate(1, 2, 2, 3, 0, 0);
    FiveStep(s, Five(1, 1, 2, 3, 0), 1, 0, Five(0, 2, 2, 3, 0));
  }

  lemma TalliedSecond(s: State)
    requires Shaped(s) && s.freq == Five(0, 2, 2, 3, 0)
    ensures var after := MergePair(s, 2, 1);
            && Shaped(after) && after.freq == Five(0, 0, 4, 3, 0)
            && after.forest == s.forest[2 := Node(s.forest[2], s.forest[1])]
            && MergeAll(s) == MergeAll(after) && MergeCost(s) == 4 + MergeCost(after)
  {
    FiveLeast(0, 2, 2, 3, 0, -1, 2);
    FiveLeast(0, 2, 2, 3, 0, 2, 1);
    FiveUpdate(0, 2, 2, 3, 0, 4);
    FiveUpdate(0, 2, 4, 3, 0, 0);
    FiveStep(s, Five(0, 2, 2, 3, 0), 2, 1, Five(0, 0, 4, 3, 0));
  }

  lemma TalliedThird(s: State)
    requires Shaped(s) && s.freq == Five(0, 0, 4, 3, 0)
    ensures var after := MergePair(s, 3, 2);
            && Shaped(after) && after.freq == Five(0, 0, 0, 7, 0)
            && after.forest == s.forest[3 := Node(s.forest[3], s.forest[2])]
            && MergeAll(s) == MergeAll(after) && MergeCost(s) == 7 + MergeCost(after)
  {
    FiveLeast(0, 0, 4, 3, 0, -1, 3);
    FiveLeast(0, 0, 4, 3, 0, 3, 2);
    FiveUpdate(0, 0, 4, 3, 0, 7);
    FiveUpdate(0, 0, 4, 7, 0, 0);
    FiveStep(s, Five(0, 0, 4, 3, 0), 3, 2, Five(0, 0, 0, 7, 0));
  }

  lemma LastTwoMerges(s: State)
    requires Shaped(s) && s.freq == Five(3, 0, 2, 3, 0) && s.forest[2] == Leaf(2) && s.forest[3] == Leaf(3)
    ensures MergeCost(s) == 13 && Least(MergeAll(s).freq, -1) == 0
    ensures MergeAll(s).forest[0] == Node(s.forest[0], Node(Leaf(2), Leaf(3)))
  {
    MergeThird(s);
    var next := MergePair(s, 2, 3);
    MergeFourth(next);
    MergeEnd(MergePair(next, 0, 2), 0);
  }

  lemma WitnessMerge(s: State)
    requires s == InitialState(Five(1, 1, 2, 3, 1))
    ensures MergeCost(s) == 18 && Height(HuffmanTree(Five(1, 1, 2, 3, 1))) == 3
  {
    MergeFirst(s);
    var next := MergePair(s, RESERVED, 1);
    MergeSecond(next);
    LastTwoMerges(MergePair(next, 0, RESERVED));
    WitnessHeight();
  }

  lemma WitnessHeight()
    ensures Height(Node(Node(Leaf(0), Node(Leaf(RESERVED), Leaf(1))), Node(Leaf(2), Leaf(3)))) == 3
  {
    assert Height(Node(Leaf(0), Node(Leaf(RESERVED), Leaf(1)))) == 2;
  }

  lemma WitnessTallied(s: State)
    requires s == InitialState(Five(1, 1, 2, 3, 0))
    ensures MergeCost(s) == 13
  {
    TalliedFirst(s);
    TalliedSecond(MergePair(s, 1, 0));
    TalliedThird(MergePair(MergePair(s, 1, 0), 2, 1));
    MergeEnd(MergePair(MergePair(MergePair(s, 1, 0), 2, 1), 3, 2), 3);
  }

  /** Frequencies 1, 1, 2 and 3 beside the reserved 1: the tree takes 15 bits for the tallied symbols, and
      a prefix code of the same symbols takes 14. */
  lemma TalliedNotAlwaysLeast()
    ensures var freq := Five(1, 1, 2, 3, 1);
            && Optimizable(freq) && freq[RESERVED] == 1 && Height(HuffmanTree(freq)) <= 16
            && PrefixCode(freq, SplitCode(freq)) && Cost(Tallied(freq), Lengths(SplitCode(freq))) == 14
            && Cost(Tallied(freq), TreeSizes(HuffmanTree(freq))) == 15
  {
    var freq := Five(1, 1, 2, 3, 1);
    WitnessMerge(InitialState(freq));
    FiveNumbers(1, 1, 2, 3, 1);
    assert freq[0] > 0;
    FiveUpdate(1, 1, 2, 3, 1, 0);
    WitnessTallied(InitialState(Tallied(freq)));
    LeastUnique(Tallied(freq), -1, 1);
    SplitIsPrefixCode(freq);
    SplitCost(freq);
    HuffmanTreeCost(freq);
    CostSplit(freq, TreeSizes(HuffmanTree(freq)));
    ReservedIsDeepest(freq);
  }
}

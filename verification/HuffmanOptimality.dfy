/** No prefix code costs less than the greedy merge, and the reserved symbol is always a deepest one. */
module HuffmanOptimality {
  import opened Bits
  import opened HuffmanCode
  import opened HuffmanMerge
  import opened HuffmanOptimize
  import opened Sequences

  // ---------------------------------------------------------------- codes by their lengths

  /** The bits that symbols of these frequencies take with codes of these sizes. */
  ghost function Cost(freq: seq<nat>, sizes: seq<nat>): nat
    requires |freq| == |sizes|
  {
    Sum(Products(freq, sizes))
  }

  ghost function Products(freq: seq<nat>, sizes: seq<nat>): (r: seq<nat>)
    requires |freq| == |sizes|
    ensures |r| == |freq|
  {
    seq(|freq|, x requires 0 <= x < |freq| => freq[x] * sizes[x])
  }

  /** The share of the strings of `depth` bits that a code of a symbol takes. */
  ghost function Taking(f: nat, size: nat, depth: nat): nat
  {
    if f == 0 || size > depth then 0 else Pow2(depth - size)
  }

  ghost function Takings(freq: seq<nat>, sizes: seq<nat>, depth: nat): (r: seq<nat>)
    requires |freq| == |sizes|
    ensures |r| == |freq|
  {
    seq(|freq|, x requires 0 <= x < |freq| => Taking(freq[x], sizes[x], depth))
  }

  /** Kraft's inequality, for the symbols in use. */
  ghost predicate Kraft(freq: seq<nat>, sizes: seq<nat>, depth: nat)
  {
    && |freq| == |sizes|
    && (forall x :: 0 <= x < |freq| && freq[x] > 0 ==> sizes[x] <= depth)
    && Sum(Takings(freq, sizes, depth)) <= Pow2(depth)
  }

  lemma ProductsUpdate(freq: seq<nat>, sizes: seq<nat>, x: nat, size: nat)
    requires |freq| == |sizes| && x < |freq|
    ensures Cost(freq, sizes[x := size]) == Cost(freq, sizes) - freq[x] * sizes[x] + freq[x] * size
  {
    assert Products(freq, sizes[x := size]) == Products(freq, sizes)[x := freq[x] * size];
    SumUpdate(Products(freq, sizes), x, freq[x] * size);
  }

  lemma TakingsUpdate(freq: seq<nat>, sizes: seq<nat>, depth: nat, x: nat, size: nat)
    requires |freq| == |sizes| && x < |freq|
    ensures Sum(Takings(freq, sizes[x := size], depth))
         == Sum(Takings(freq, sizes, depth)) - Taking(freq[x], sizes[x], depth) + Taking(freq[x], size, depth)
  {
    assert Takings(freq, sizes[x := size], depth) == Takings(freq, sizes, depth)[x := Taking(freq[x], size, depth)];
    SumUpdate(Takings(freq, sizes, depth), x, Taking(freq[x], size, depth));
  }

  lemma {:induction false} SumDouble(a: seq<nat>, b: seq<nat>)
    requires |a| == |b| && forall x :: 0 <= x < |a| ==> a[x] == 2 * b[x]
    ensures Sum(a) == 2 * Sum(b)
  {
    if a != [] {
      SumDouble(a[..|a| - 1], b[..|b| - 1]);
    }
  }

  /** Codes that all stop one level higher. */
  lemma TakingsHalf(freq: seq<nat>, sizes: seq<nat>, depth: nat)
    requires |freq| == |sizes| && depth > 0
    requires forall x :: 0 <= x < |freq| && freq[x] > 0 ==> sizes[x] < depth
    ensures Sum(Takings(freq, sizes, depth)) == 2 * Sum(Takings(freq, sizes, depth - 1))
  {
    SumDouble(Takings(freq, sizes, depth), Takings(freq, sizes, depth - 1));
  }

  lemma KraftHigher(freq: seq<nat>, sizes: seq<nat>, depth: nat)
    requires Kraft(freq, sizes, depth) && depth > 0
    requires forall x :: 0 <= x < |freq| && freq[x] > 0 ==> sizes[x] < depth
    ensures Kraft(freq, sizes, depth - 1)
  {
    TakingsHalf(freq, sizes, depth);
  }

  // ---------------------------------------------------------------- improving a code

  /** A code that is alone at the greatest depth can be one bit shorter. */
  lemma ShortenAlone(freq: seq<nat>, sizes: seq<nat>, depth: nat, x: nat)
    requires Kraft(freq, sizes, depth) && depth > 0 && x < |freq| && freq[x] > 0 && sizes[x] == depth
    requires forall y :: 0 <= y < |freq| && freq[y] > 0 && y != x ==> sizes[y] < depth
    ensures Kraft(freq, sizes[x := depth - 1], depth - 1)
    ensures Cost(freq, sizes[x := depth - 1]) <= Cost(freq, sizes)
  {
    var shorter := sizes[x := depth - 1];
    TakingsUpdate(freq, sizes, depth, x, depth - 1);
    TakingsHalf(freq, shorter, depth);
    assert Taking(freq[x], depth, depth) == Pow2(0) && Taking(freq[x], depth - 1, depth) == Pow2(1);
    ProductsUpdate(freq, sizes, x, depth - 1);
    LessTimes(freq[x], depth - 1, depth);
  }

  lemma LessTimes(f: nat, a: nat, b: nat)
    requires a <= b
    ensures f * a <= f * b
  {
  }

  function Swapped(sizes: seq<nat>, v: nat, z: nat): (r: seq<nat>)
    requires v < |sizes| && z < |sizes|
    ensures |r| == |sizes|
  {
    sizes[v := sizes[z]][z := sizes[v]]
  }

  /** Giving the longer code to the rarer symbol does not cost more. */
  lemma SwapDown(freq: seq<nat>, sizes: seq<nat>, depth: nat, v: nat, z: nat)
    requires Kraft(freq, sizes, depth) && v < |freq| && z < |freq| && 0 < freq[v] <= freq[z]
    requires sizes[v] <= sizes[z]
    ensures Kraft(freq, Swapped(sizes, v, z), depth) && Cost(freq, Swapped(sizes, v, z)) <= Cost(freq, sizes)
  {
    var once := sizes[v := sizes[z]];
    TakingsUpdate(freq, sizes, depth, v, sizes[z]);
    TakingsUpdate(freq, once, depth, z, sizes[v]);
    ProductsUpdate(freq, sizes, v, sizes[z]);
    ProductsUpdate(freq, once, z, sizes[v]);
    Rearranged(freq[v], freq[z], sizes[v], sizes[z]);
  }

  lemma Rearranged(a: nat, b: nat, p: nat, q: nat)
    requires a <= b && p <= q
    ensures a * q + b * p <= a * p + b * q
  {
    MulDistributes(a, b - a, q);
    MulDistributes(a, b - a, p);
    LessTimes(b - a, p, q);
  }

  function Joined(freq: seq<nat>, v1: nat, v2: nat): (r: seq<nat>)
    requires v1 < |freq| && v2 < |freq|
    ensures |r| == |freq|
  {
    freq[v1 := freq[v1] + freq[v2]][v2 := 0]
  }

  lemma JoinedTakings(freq: seq<nat>, sizes: seq<nat>, depth: nat, v1: nat, v2: nat)
    requires |freq| == |sizes| && depth > 0 && v1 < |freq| && v2 < |freq| && v1 != v2
    requires freq[v1] > 0 && freq[v2] > 0 && sizes[v1] == sizes[v2] == depth
    ensures Sum(Takings(Joined(freq, v1, v2), sizes[v1 := depth - 1], depth)) == Sum(Takings(freq, sizes, depth))
  {
    var t := Takings(freq, sizes, depth);
    assert Takings(Joined(freq, v1, v2), sizes[v1 := depth - 1], depth) == t[v1 := Pow2(1)][v2 := 0];
    assert t[v1] == Pow2(0) && t[v2] == Pow2(0);
    SumUpdate(t, v1, Pow2(1));
    SumUpdate(t[v1 := Pow2(1)], v2, 0);
  }

  lemma JoinedCost(freq: seq<nat>, sizes: seq<nat>, depth: nat, v1: nat, v2: nat)
    requires |freq| == |sizes| && depth > 0 && v1 < |freq| && v2 < |freq| && v1 != v2
    requires sizes[v1] == sizes[v2] == depth
    ensures Cost(Joined(freq, v1, v2), sizes[v1 := depth - 1]) + freq[v1] + freq[v2] == Cost(freq, sizes)
  {
    var p, w := Products(freq, sizes), freq[v1] + freq[v2];
    assert Products(Joined(freq, v1, v2), sizes[v1 := depth - 1]) == p[v1 := w * (depth - 1)][v2 := 0];
    SumUpdate(p, v1, w * (depth - 1));
    SumUpdate(p[v1 := w * (depth - 1)], v2, 0);
    OneLess(freq[v1], freq[v2], depth);
  }

  lemma OneLess(a: nat, b: nat, depth: nat)
    requires depth > 0
    ensures (a + b) * (depth - 1) + a + b == a * depth + b * depth
  {
  }

  /** Two siblings at the greatest depth become one symbol above them. */
  lemma JoinDeepest(freq: seq<nat>, sizes: seq<nat>, depth: nat, v1: nat, v2: nat)
    requires Kraft(freq, sizes, depth) && depth > 0 && v1 < |freq| && v2 < |freq| && v1 != v2
    requires freq[v1] > 0 && freq[v2] > 0 && sizes[v1] == sizes[v2] == depth
    ensures Kraft(Joined(freq, v1, v2), sizes[v1 := depth - 1], depth)
    ensures Cost(Joined(freq, v1, v2), sizes[v1 := depth - 1]) + freq[v1] + freq[v2] == Cost(freq, sizes)
  {
    JoinedTakings(freq, sizes, depth, v1, v2);
    JoinedCost(freq, sizes, depth, v1, v2);
  }

  // ---------------------------------------------------------------- no code beats the merge

  /** The weights of all the trees the merge joins. */
  ghost function MergeCost(s: State): nat
    requires Shaped(s)
    decreases NonZero(s.freq)
  {
    var v1 := Least(s.freq, -1);
    var v2 := Least(s.freq, v1);
    if v1 < 0 || v2 < 0 then 0
    else
      MergePairCounts(s, v1, v2);
      s.freq[v1] + s.freq[v2] + MergeCost(MergePair(s, v1, v2))
  }

  /** Two symbols cannot both have the empty code. */
  lemma NotBothEmpty(freq: seq<nat>, sizes: seq<nat>, v1: nat, v2: nat)
    requires v1 < |freq| && v2 < |freq| && v1 != v2 && freq[v1] > 0 && freq[v2] > 0
    requires |freq| == |sizes| && forall x :: 0 <= x < |freq| && freq[x] > 0 ==> sizes[x] == 0
    ensures Sum(Takings(freq, sizes, 0)) > Pow2(0)
  {
    var t := Takings(freq, sizes, 0);
    SumUpdate(t, v1, 0);
    SumUpdate(t[v1 := 0], v2, 0);
  }

  ghost predicate Deep(freq: seq<nat>, sizes: seq<nat>, depth: nat, x: nat)
    requires |freq| == |sizes|
  {
    x < |freq| && freq[x] > 0 && sizes[x] == depth
  }

  /** With two codes at the greatest depth, the two rarest symbols can have them. */
  lemma RarestDeepest(s: State, sizes: seq<nat>, depth: nat, v1: nat, v2: nat, x: nat, y: nat) returns (r: seq<nat>)
    requires Shaped(s) && IsLeast(s.freq, -1, v1) && IsLeast(s.freq, v1, v2) && Kraft(s.freq, sizes, depth)
    requires Deep(s.freq, sizes, depth, x) && Deep(s.freq, sizes, depth, y) && x != y
    ensures Kraft(s.freq, r, depth) && Cost(s.freq, r) <= Cost(s.freq, sizes) && r[v1] == r[v2] == depth
  {
    SwapDown(s.freq, sizes, depth, v1, x);
    var once := Swapped(sizes, v1, x);
    var z := if y == v1 then x else y;
    assert Deep(s.freq, once, depth, z) && z != v1;
    SwapDown(s.freq, once, depth, v2, z);
    r := Swapped(once, v2, z);
  }

  /** Some code that costs no more has the two rarest symbols at its greatest depth. */
  lemma {:induction false} Prepared(s: State, sizes: seq<nat>, depth: nat, v1: nat, v2: nat)
    returns (r: seq<nat>, d: nat)
    requires Shaped(s) && IsLeast(s.freq, -1, v1) && IsLeast(s.freq, v1, v2) && Kraft(s.freq, sizes, depth)
    ensures d > 0 && Kraft(s.freq, r, d) && Cost(s.freq, r) <= Cost(s.freq, sizes) && r[v1] == r[v2] == d
    decreases depth
  {
    if depth == 0 {
      NotBothEmpty(s.freq, sizes, v1, v2);
    }
    if !exists x: nat :: Deep(s.freq, sizes, depth, x) {
      NoneDeep(s.freq, sizes, depth);
      r, d := Prepared(s, sizes, depth - 1, v1, v2);
    } else {
      var x: nat :| Deep(s.freq, sizes, depth, x);
      if !exists y: nat :: y != x && Deep(s.freq, sizes, depth, y) {
        OnlyDeep(s.freq, sizes, depth, x);
        ShortenAlone(s.freq, sizes, depth, x);
        r, d := Prepared(s, sizes[x := depth - 1], depth - 1, v1, v2);
      } else {
        var y: nat :| y != x && Deep(s.freq, sizes, depth, y);
        r := RarestDeepest(s, sizes, depth, v1, v2, x, y);
        d := depth;
      }
    }
  }

  /** Sizes that meet Kraft's inequality cost at least what the merges do. */
  lemma {:induction false} MergeIsOptimal(s: State, sizes: seq<nat>, depth: nat)
    requires Shaped(s) && Kraft(s.freq, sizes, depth)
    ensures MergeCost(s) <= Cost(s.freq, sizes)
    decreases NonZero(s.freq)
  {
    var v1 := Least(s.freq, -1);
    var v2 := Least(s.freq, v1);
    if v1 >= 0 && v2 >= 0 {
      var r, d := Prepared(s, sizes, depth, v1, v2);
      JoinDeepest(s.freq, r, d, v1, v2);
      MergePairCounts(s, v1, v2);
      MergeIsOptimal(MergePair(s, v1, v2), r[v1 := d - 1], d);
    }
  }

  lemma NoneDeep(freq: seq<nat>, sizes: seq<nat>, depth: nat)
    requires Kraft(freq, sizes, depth) && depth > 0 && forall x: nat :: !Deep(freq, sizes, depth, x)
    ensures Kraft(freq, sizes, depth - 1)
  {
    forall x | 0 <= x < |freq| && freq[x] > 0 ensures sizes[x] < depth {
      assert !Deep(freq, sizes, depth, x);
    }
    KraftHigher(freq, sizes, depth);
  }

  lemma OnlyDeep(freq: seq<nat>, sizes: seq<nat>, depth: nat, x: nat)
    requires Kraft(freq, sizes, depth) && forall y: nat :: y != x ==> !Deep(freq, sizes, depth, y)
    ensures forall y :: 0 <= y < |freq| && freq[y] > 0 && y != x ==> sizes[y] < depth
  {
    forall y | 0 <= y < |freq| && freq[y] > 0 && y != x ensures sizes[y] < depth {
      assert !Deep(freq, sizes, depth, y);
    }
  }

  // ---------------------------------------------------------------- the tree costs what the merge does

  /** The weights of all inner nodes. */
  ghost function InnerWeight(freq: seq<nat>, t: Tree): nat
  {
    match t
    case Leaf(_) => 0
    case Node(l, r) => InnerWeight(freq, l) + InnerWeight(freq, r) + Weight(freq, t)
  }

  /** Every leaf's frequency times its depth, when the root is at depth d. */
  ghost function DepthCost(freq: seq<nat>, t: Tree, d: nat): nat
  {
    match t
    case Leaf(x) => Weight(freq, t) * d
    case Node(l, r) => DepthCost(freq, l, d + 1) + DepthCost(freq, r, d + 1)
  }

  lemma {:induction false} DepthCostIs(freq: seq<nat>, t: Tree, d: nat)
    ensures DepthCost(freq, t, d) == InnerWeight(freq, t) + Weight(freq, t) * d
  {
    match t
    case Leaf(_) =>
    case Node(l, r) =>
      DepthCostIs(freq, l, d + 1);
      DepthCostIs(freq, r, d + 1);
      MulDistributes(Weight(freq, l), Weight(freq, r), d);
      NextTimes(Weight(freq, l), d);
      NextTimes(Weight(freq, r), d);
  }

  lemma NextTimes(w: nat, d: nat)
    ensures w * (d + 1) == w * d + w
  {
  }

  /** The frequencies of the leaves times their depths. */
  ghost function LeafCosts(freq: seq<nat>, t: Tree, d: nat): (r: seq<nat>)
    ensures |r| == |Leaves(t)|
  {
    seq(|Leaves(t)|, k requires 0 <= k < |Leaves(t)| => Weight(freq, Leaf(Leaves(t)[k])) * Depths(t, d)[k])
  }

  lemma LeafCostsNode(freq: seq<nat>, l: Tree, r: Tree, d: nat)
    ensures LeafCosts(freq, Node(l, r), d) == LeafCosts(freq, l, d + 1) + LeafCosts(freq, r, d + 1)
  {
    var t := Node(l, r);
    assert Leaves(t) == Leaves(l) + Leaves(r);
    assert Depths(t, d) == Depths(l, d + 1) + Depths(r, d + 1);
  }

  lemma {:induction false} LeafCostsSum(freq: seq<nat>, t: Tree, d: nat)
    ensures Sum(LeafCosts(freq, t, d)) == DepthCost(freq, t, d)
  {
    match t
    case Leaf(x) =>
      assert LeafCosts(freq, t, d) == [Weight(freq, t) * d];
      assert Sum([Weight(freq, t) * d]) == Sum([]) + Weight(freq, t) * d;
    case Node(l, r) =>
      LeafCostsSum(freq, l, d + 1);
      LeafCostsSum(freq, r, d + 1);
      LeafCostsNode(freq, l, r, d);
      SumConcat(LeafCosts(freq, l, d + 1), LeafCosts(freq, r, d + 1));
  }

  lemma ProductsAlong(freq: seq<nat>, sizes: seq<nat>, t: Tree)
    requires |freq| == |sizes| == SYMBOLS && forall k :: 0 <= k < |Leaves(t)| ==> Leaves(t)[k] < SYMBOLS
    requires forall k :: 0 <= k < |Leaves(t)| ==> sizes[Leaves(t)[k]] == Depths(t, 0)[k]
    ensures Along(Products(freq, sizes), Leaves(t)) == LeafCosts(freq, t, 0)
  {
  }

  lemma TreeSizesAre(t: Tree)
    requires Distinct(Leaves(t)) && forall x :: x in Leaves(t) ==> x < SYMBOLS
    ensures forall k :: 0 <= k < |Leaves(t)| ==>
              Leaves(t)[k] < SYMBOLS && TreeSizes(t)[Leaves(t)[k]] == Depths(t, 0)[k]
    ensures forall x :: 0 <= x < SYMBOLS && x !in Leaves(t) ==> TreeSizes(t)[x] == 0
  {
    DepthsAreDepthOf(t, 0);
    forall k | 0 <= k < |Leaves(t)| ensures Leaves(t)[k] < SYMBOLS && TreeSizes(t)[Leaves(t)[k]] == Depths(t, 0)[k] {
      assert Leaves(t)[k] in Leaves(t);
    }
  }

  lemma SizedCost(freq: seq<nat>, sizes: seq<nat>, t: Tree)
    requires |freq| == |sizes| == SYMBOLS && Distinct(Leaves(t))
    requires forall k :: 0 <= k < |Leaves(t)| ==> Leaves(t)[k] < SYMBOLS && sizes[Leaves(t)[k]] == Depths(t, 0)[k]
    requires forall x :: 0 <= x < SYMBOLS && x !in Leaves(t) ==> sizes[x] == 0
    ensures Cost(freq, sizes) == DepthCost(freq, t, 0)
  {
    ProductsAlong(freq, sizes, t);
    SumOverLeaves(Products(freq, sizes), Leaves(t));
    LeafCostsSum(freq, t, 0);
  }

  /** The cost of the sizes that a tree gives its symbols. */
  lemma TreeCost(freq: seq<nat>, t: Tree)
    requires |freq| == SYMBOLS && Distinct(Leaves(t)) && forall x :: x in Leaves(t) ==> x < SYMBOLS
    ensures Cost(freq, TreeSizes(t)) == InnerWeight(freq, t)
  {
    TreeSizesAre(t);
    SizedCost(freq, TreeSizes(t), t);
    DepthCostIs(freq, t, 0);
  }

  /** The inner weights of the live trees. */
  ghost function Inners(f0: seq<nat>, s: State): (r: seq<nat>)
    requires Shaped(s)
    ensures |r| == SYMBOLS
  {
    seq(SYMBOLS, h requires 0 <= h < SYMBOLS => if s.freq[h] > 0 then InnerWeight(f0, s.forest[h]) else 0)
  }

  ghost predicate Weighed(f0: seq<nat>, s: State)
    requires Shaped(s)
  {
    forall h :: 0 <= h < SYMBOLS && s.freq[h] > 0 ==> s.freq[h] == Weight(f0, s.forest[h])
  }

  lemma MergeInners(f0: seq<nat>, s: State, v1: nat, v2: nat)
    requires Shaped(s) && Weighed(f0, s) && v1 < SYMBOLS && v2 < SYMBOLS && v1 != v2 && s.freq[v1] > 0 && s.freq[v2] > 0
    ensures Weighed(f0, MergePair(s, v1, v2))
    ensures Sum(Inners(f0, MergePair(s, v1, v2))) == Sum(Inners(f0, s)) + s.freq[v1] + s.freq[v2]
  {
    var i, s' := Inners(f0, s), MergePair(s, v1, v2);
    var w := i[v1] + i[v2] + s.freq[v1] + s.freq[v2];
    assert Inners(f0, s') == i[v1 := w][v2 := 0];
    SumUpdate(i, v1, w);
    SumUpdate(i[v1 := w], v2, 0);
  }

  lemma {:induction false} MergeAllInners(f0: seq<nat>, s: State)
    requires Shaped(s) && Weighed(f0, s)
    ensures Sum(Inners(f0, MergeAll(s))) == Sum(Inners(f0, s)) + MergeCost(s)
    decreases NonZero(s.freq)
  {
    var v1 := Least(s.freq, -1);
    var v2 := Least(s.freq, v1);
    if v1 >= 0 && v2 >= 0 {
      MergePairCounts(s, v1, v2);
      MergeInners(f0, s, v1, v2);
      MergeAllInners(f0, MergePair(s, v1, v2));
    }
  }

  lemma OneInner(f0: seq<nat>, s: State, v: nat)
    requires Shaped(s) && v < SYMBOLS && s.freq[v] > 0 && NoneLeft(s.freq, v)
    ensures Sum(Inners(f0, s)) == InnerWeight(f0, s.forest[v])
  {
    SumUpdate(Inners(f0, s), v, 0);
    AllZero(Inners(f0, s)[v := 0]);
  }

  /** The tree costs what its merges do. */
  lemma HuffmanTreeCost(freq: seq<nat>)
    requires |freq| == SYMBOLS && !NoneLeft(freq, -1)
    ensures Cost(freq, TreeSizes(HuffmanTree(freq))) == MergeCost(InitialState(freq))
  {
    var s := InitialState(freq);
    HuffmanTreeLeaves(freq);
    TreeCost(freq, HuffmanTree(freq));
    MergeAllInners(freq, s);
    AllZero(Inners(freq, s));
    MergeAllEnds(s);
    OneInner(freq, MergeAll(s), Least(MergeAll(s).freq, -1));
  }

  /** The tree of the merge is optimal: no sizes that meet Kraft's inequality cost less. */
  lemma HuffmanTreeIsOptimal(freq: seq<nat>, sizes: seq<nat>, depth: nat)
    requires |freq| == SYMBOLS && !NoneLeft(freq, -1) && Kraft(freq, sizes, depth)
    ensures Cost(freq, TreeSizes(HuffmanTree(freq))) <= Cost(freq, sizes)
  {
    HuffmanTreeCost(freq);
    MergeIsOptimal(InitialState(freq), sizes, depth);
  }

  // ---------------------------------------------------------------- the reserved symbol is among the deepest

  const RESERVED := 256

  /** The merge takes g before h. */
  ghost predicate Precedes(freq: seq<nat>, g: nat, h: nat)
    requires g < |freq| && h < |freq|
  {
    freq[g] < freq[h] || (freq[g] == freq[h] && g > h)
  }

  /** A live tree is neither lighter than a child of tree h nor, when all three weigh the same, behind it. */
  ghost predicate Outweighs(f0: seq<nat>, s: State, g: nat, h: nat)
    requires Shaped(s) && g < SYMBOLS && h < SYMBOLS
  {
    s.forest[h].Node? ==>
      var l, r := Weight(f0, s.forest[h].left), Weight(f0, s.forest[h].right);
      && s.freq[g] >= l && s.freq[g] >= r
      && (s.freq[g] == l == r ==> g < h)
  }

  /** Tree h holds the reserved symbol at its greatest depth. No live tree is higher, and those that the
      merge takes before it are lower. */
  ghost predicate ReservedDeepest(f0: seq<nat>, s: State, h: nat)
  {
    && Shaped(s) && h < SYMBOLS && s.freq[h] > 0
    && RESERVED in Leaves(s.forest[h]) && DepthOf(s.forest[h], RESERVED) == Height(s.forest[h])
    && (forall g :: 0 <= g < SYMBOLS && s.freq[g] > 0 ==> Height(s.forest[g]) <= Height(s.forest[h]))
    && (forall g :: 0 <= g < SYMBOLS && s.freq[g] > 0 && Precedes(s.freq, g, h) ==>
          Height(s.forest[g]) < Height(s.forest[h]))
    && (forall g :: 0 <= g < SYMBOLS && s.freq[g] > 0 && g != h ==> Outweighs(f0, s, g, h))
  }

  lemma ReservedFirst(freq: seq<nat>)
    requires |freq| == SYMBOLS && freq[RESERVED] == 1
    ensures ReservedDeepest(freq, InitialState(freq), RESERVED)
  {
  }

  /** The least two both weigh at least as much as the children of a tree that neither of them is. */
  lemma JoinedBehind(f0: seq<nat>, s: State, v1: nat, v2: nat, h: nat)
    requires ReservedDeepest(f0, s, h) && Weighed(f0, s) && v1 < SYMBOLS && v2 < SYMBOLS
    requires IsLeast(s.freq, -1, v1) && IsLeast(s.freq, v1, v2) && h != v1 && h != v2
    ensures Height(s.forest[v1]) < Height(s.forest[h]) && Height(s.forest[v2]) < Height(s.forest[h])
    ensures s.forest[h].Node? && !Precedes(MergePair(s, v1, v2).freq, v1, h)
    ensures Outweighs(f0, MergePair(s, v1, v2), v1, h)
  {
    assert Precedes(s.freq, v1, h) && Precedes(s.freq, v2, h);
    assert s.forest[h].Node?;
    assert Outweighs(f0, s, v1, h) && Outweighs(f0, s, v2, h);
    assert s.freq[h] == Weight(f0, s.forest[h].left) + Weight(f0, s.forest[h].right);
  }

  /** The tree with the reserved symbol is one of the two that are joined. */
  lemma ReservedJoins(f0: seq<nat>, s: State, v1: nat, v2: nat, h: nat)
    requires ReservedDeepest(f0, s, h) && Weighed(f0, s) && v1 < SYMBOLS && v2 < SYMBOLS
    requires IsLeast(s.freq, -1, v1) && IsLeast(s.freq, v1, v2) && (h == v1 || h == v2)
    requires h == v2 ==> RESERVED !in Leaves(s.forest[v1])
    ensures ReservedDeepest(f0, MergePair(s, v1, v2), v1)
  {
    var s' := MergePair(s, v1, v2);
    var t := s'.forest[v1];
    assert t == Node(s.forest[v1], s.forest[v2]);
    assert DepthOf(t, RESERVED) == 1 + DepthOf(s.forest[h], RESERVED);
    assert Height(t) == 1 + Height(s.forest[h]);
    forall g | 0 <= g < SYMBOLS && s'.freq[g] > 0 && g != v1
      ensures Height(s'.forest[g]) < Height(t) && Outweighs(f0, s', g, v1)
    {
      assert s.freq[g] > 0 && s'.forest[g] == s.forest[g];
    }
  }

  /** Neither of the two is the tree with the reserved symbol. */
  lemma ReservedWaits(f0: seq<nat>, s: State, v1: nat, v2: nat, h: nat)
    requires ReservedDeepest(f0, s, h) && Weighed(f0, s) && v1 < SYMBOLS && v2 < SYMBOLS
    requires IsLeast(s.freq, -1, v1) && IsLeast(s.freq, v1, v2) && h != v1 && h != v2
    ensures ReservedDeepest(f0, MergePair(s, v1, v2), h)
  {
    var s' := MergePair(s, v1, v2);
    JoinedBehind(f0, s, v1, v2, h);
    forall g | 0 <= g < SYMBOLS && s'.freq[g] > 0
      ensures Height(s'.forest[g]) <= Height(s'.forest[h])
      ensures Precedes(s'.freq, g, h) ==> Height(s'.forest[g]) < Height(s'.forest[h])
      ensures g != h ==> Outweighs(f0, s', g, h)
    {
      if g != v1 {
        assert s.freq[g] > 0 && s'.forest[g] == s.forest[g] && s'.freq[g] == s.freq[g];
        assert Precedes(s'.freq, g, h) ==> Precedes(s.freq, g, h);
        assert g != h ==> Outweighs(f0, s, g, h);
      }
    }
  }

  lemma {:induction false} ReservedStays(f0: seq<nat>, s: State, owner: seq<nat>, h: nat) returns (h': nat)
    requires Forest(f0, s, owner) && ReservedDeepest(f0, s, h)
    ensures ReservedDeepest(f0, MergeAll(s), h')
    decreases NonZero(s.freq)
  {
    var v1 := Least(s.freq, -1);
    var v2 := Least(s.freq, v1);
    h' := h;
    if v1 >= 0 && v2 >= 0 {
      MergePairCounts(s, v1, v2);
      MergeForest(f0, s, owner, v1, v2);
      ForestWeighed(f0, s, owner);
      if h == v1 || h == v2 {
        OwnTree(f0, s, owner, v1, h);
        ReservedJoins(f0, s, v1, v2, h);
        h' := ReservedStays(f0, MergePair(s, v1, v2), MergedOwner(owner, v1, v2), v1);
      } else {
        ReservedWaits(f0, s, v1, v2, h);
        h' := ReservedStays(f0, MergePair(s, v1, v2), MergedOwner(owner, v1, v2), h);
      }
    }
  }

  lemma ForestWeighed(f0: seq<nat>, s: State, owner: seq<nat>)
    requires Forest(f0, s, owner)
    ensures Weighed(f0, s)
  {
    forall h | 0 <= h < SYMBOLS && s.freq[h] > 0 ensures s.freq[h] == Weight(f0, s.forest[h]) {
      assert Live(f0, s, owner, h);
    }
  }

  lemma OwnTree(f0: seq<nat>, s: State, owner: seq<nat>, g: nat, h: nat)
    requires Forest(f0, s, owner) && g < SYMBOLS && h < SYMBOLS && s.freq[g] > 0 && s.freq[h] > 0
    requires RESERVED in Leaves(s.forest[h])
    ensures g != h ==> RESERVED !in Leaves(s.forest[g])
  {
    assert Live(f0, s, owner, g) && Live(f0, s, owner, h);
  }

  /** With the frequency 1 that the tallies reserve for it, symbol 256 is as deep as the tree is high. */
  lemma ReservedIsDeepest(freq: seq<nat>)
    requires |freq| == SYMBOLS && freq[RESERVED] == 1
    ensures RESERVED in Leaves(HuffmanTree(freq))
    ensures DepthOf(HuffmanTree(freq), RESERVED) == Height(HuffmanTree(freq))
  {
    var s := InitialState(freq);
    ReservedFirst(freq);
    InitialForest(freq);
    var h := ReservedStays(freq, s, EveryoneAlone(), RESERVED);
    MergeAllEnds(s);
    LeastUnique(MergeAll(s).freq, -1, h);
  }

  // ---------------------------------------------------------------- the sizes of the table's codes

  /** Marks the entries from 1 to n. */
  ghost function Marks(sizes: seq<nat>, n: nat): (r: seq<nat>)
    ensures |r| == |sizes|
  {
    seq(|sizes|, x requires 0 <= x < |sizes| => if 0 < sizes[x] <= n then 1 else 0)
  }

  lemma {:induction false} MarksStep(sizes: seq<nat>, n: nat)
    requires n > 0
    ensures Sum(Marks(sizes, n)) == Sum(Marks(sizes, n - 1)) + CountOf(sizes, n)
  {
    if sizes != [] {
      var front := sizes[..|sizes| - 1];
      MarksStep(front, n);
      assert Marks(sizes, n)[..|front|] == Marks(front, n);
      assert Marks(sizes, n - 1)[..|front|] == Marks(front, n - 1);
    }
  }

  /** Up to n bits, the lengths count the marked symbols, less the dropped code. */
  lemma {:induction false} CountMarks(sizes: seq<nat>, length: seq<nat>, longest: nat, n: nat)
    requires OneOfLongestDropped(sizes, length, longest) && n <= 16
    ensures Count(length, n) == Sum(Marks(sizes, n)) - (if n >= longest then 1 else 0)
  {
    if n == 0 {
      AllZero(Marks(sizes, 0));
    } else {
      CountMarks(sizes, length, longest, n - 1);
      MarksStep(sizes, n);
    }
  }

  lemma {:induction false} FirstOnes(s: seq<nat>, k: nat)
    requires k <= |s| && forall j :: 0 <= j < k ==> s[j] == 1
    ensures Sum(s) >= k
  {
    if s != [] {
      if k == |s| {
        FirstOnes(s[..|s| - 1], k - 1);
      } else {
        FirstOnes(s[..|s| - 1], k);
      }
    }
  }

  lemma {:induction false} OnesOnlyBefore(s: seq<nat>, k: nat)
    requires k <= |s| && (forall j :: 0 <= j < k ==> s[j] <= 1) && (forall j :: k <= j < |s| ==> s[j] == 0)
    ensures Sum(s) <= k
  {
    if s != [] {
      if k == |s| {
        OnesOnlyBefore(s[..|s| - 1], k - 1);
      } else {
        OnesOnlyBefore(s[..|s| - 1], k);
      }
    }
  }

  /** The marked symbols below 256 are the marked values. */
  lemma MarkedValues(sizes: seq<nat>, values: seq<byte>, n: nat)
    requires |sizes| == SYMBOLS && SortedBySize(sizes, values)
    ensures Sum(Marks(sizes, n)) == Sum(Along(Marks(sizes, n)[..256], values)) + Marks(sizes, n)[256]
  {
    var m := Marks(sizes, n);
    assert m[..|m| - 1] == m[..256];
    SumOverLeaves(m[..256], values);
  }

  /** The k-th value has exactly k marked values before it when the marks stop below its size, and more
      when they reach it. */
  lemma ValuePosition(sizes: seq<nat>, values: seq<byte>, k: nat)
    requires |sizes| == SYMBOLS && SortedBySize(sizes, values) && k < |values|
    ensures var z := sizes[values[k]];
            && z > 0
            && Sum(Along(Marks(sizes, z - 1)[..256], values)) <= k
            && Sum(Along(Marks(sizes, z)[..256], values)) > k
  {
    assert values[k] in values;
    var z := sizes[values[k]];
    OnesOnlyBefore(Along(Marks(sizes, z - 1)[..256], values), k);
    forall j | 0 <= j <= k ensures 0 < sizes[values[j]] <= z {
      assert values[j] in values;
      assert j < k ==> Before(sizes, values[j], values[k]);
    }
    FirstOnes(Along(Marks(sizes, z)[..256], values), k + 1);
  }

  lemma ValueSize(sizes: seq<nat>, values: seq<byte>, length: seq<nat>, longest: nat, k: nat)
    requires |sizes| == SYMBOLS && SortedBySize(sizes, values) && k < |values|
    requires OneOfLongestDropped(sizes, length, longest) && sizes[256] == longest
    requires sizes[values[k]] <= 16
    ensures HasSize(length, k, sizes[values[k]])
  {
    var z := sizes[values[k]];
    ValuePosition(sizes, values, k);
    CountMarks(sizes, length, longest, z - 1);
    CountMarks(sizes, length, longest, z);
    MarkedValues(sizes, values, z - 1);
    MarkedValues(sizes, values, z);
  }

  lemma LongestIsHeight(freq: seq<nat>, length: Lengths, longest: nat)
    requires Optimizable(freq) && freq[RESERVED] == 1 && Height(HuffmanTree(freq)) <= 16
    requires OneOfLongestDropped(TreeSizes(HuffmanTree(freq)), length, longest)
    ensures TreeSizes(HuffmanTree(freq))[RESERVED] == longest == Height(HuffmanTree(freq))
  {
    var t := HuffmanTree(freq);
    var sizes := TreeSizes(t);
    ReservedIsDeepest(freq);
    HuffmanTreeLeaves(freq);
    NoneOf(sizes, Height(t));
    NoneOf(sizes, longest);
    assert length[longest - 1] >= 0;
    var x :| 0 <= x < SYMBOLS && sizes[x] == longest;
    DepthAtMost(t, x);
  }

  lemma {:induction false} DepthAtMost(t: Tree, x: nat)
    ensures DepthOf(t, x) <= Height(t)
  {
    match t
    case Leaf(_) =>
    case Node(l, r) =>
      DepthAtMost(l, x);
      DepthAtMost(r, x);
  }

  /** When the tree is at most 16 high, the table gives every symbol a code as long as its depth in the
      tree, and the code that is taken away is the reserved symbol's. */
  lemma TableSizesAreDepths(freq: seq<nat>, t: HuffmanTable, longest: nat)
    requires Optimizable(freq) && freq[RESERVED] == 1 && Height(HuffmanTree(freq)) <= 16
    requires ValidTable(t) && SortedBySize(TreeSizes(HuffmanTree(freq)), t.values)
    requires OneOfLongestDropped(TreeSizes(HuffmanTree(freq)), t.length, longest)
    ensures TreeSizes(HuffmanTree(freq))[RESERVED] == longest
    ensures forall v: byte :: t.lookup[v].size == TreeSizes(HuffmanTree(freq))[v]
  {
    var sizes := TreeSizes(HuffmanTree(freq));
    LongestIsHeight(freq, t.length, longest);
    forall v: byte ensures t.lookup[v].size == sizes[v] {
      if v in t.values {
        var k :| 0 <= k < |t.values| && t.values[k] == v;
        DepthAtMost(HuffmanTree(freq), v);
        ValueSize(sizes, t.values, t.length, longest, k);
        SizeUnique(t.length, k, t.lookup[v].size, sizes[v]);
      }
    }
  }

  /** The sizes of a table's codes, with the reserved symbol's. */
  ghost function TableSizes(t: HuffmanTable, longest: nat): (r: seq<nat>)
    ensures |r| == SYMBOLS
  {
    seq(SYMBOLS, x requires 0 <= x < SYMBOLS => if x < 256 then t.lookup[x].size else longest)
  }

  /** Optimality of the tables that new_optimized makes: unless lengths had to be limited to 16 bits, no
      sizes that meet Kraft's inequality take fewer bits for the tallied symbols and one reserved one. */
  lemma OptimizedTableIsOptimal(freq: seq<nat>, t: HuffmanTable, longest: nat, sizes: seq<nat>, depth: nat)
    requires Optimizable(freq) && freq[RESERVED] == 1 && Height(HuffmanTree(freq)) <= 16
    requires ValidTable(t) && SortedBySize(TreeSizes(HuffmanTree(freq)), t.values)
    requires OneOfLongestDropped(TreeSizes(HuffmanTree(freq)), t.length, longest)
    requires Kraft(freq, sizes, depth)
    ensures Cost(freq, TableSizes(t, longest)) <= Cost(freq, sizes)
  {
    TableSizesAreDepths(freq, t, longest);
    assert TableSizes(t, longest) == TreeSizes(HuffmanTree(freq));
    HuffmanTreeIsOptimal(freq, sizes, depth);
  }
}

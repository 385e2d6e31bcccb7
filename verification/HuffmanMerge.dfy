/** The greedy merge that finds Huffman code sizes (Figure K.1 of ITU-T T.81): the trees it builds,
    and the in-place version that keeps each tree as a linked chain of its symbols. */
module HuffmanMerge {
  import opened Sequences

  const SYMBOLS := 257

  // ---------------------------------------------------------------- trees

  datatype Tree = Leaf(symbol: nat) | Node(left: Tree, right: Tree)

  /** The symbols of a tree, left to right. */
  function Leaves(t: Tree): (s: seq<nat>)
    ensures |s| > 0
  {
    match t
    case Leaf(x) => [x]
    case Node(l, r) => Leaves(l) + Leaves(r)
  }

  /** The depths of the leaves, left to right, when the root is at depth d. */
  function Depths(t: Tree, d: nat): (s: seq<nat>)
    ensures |s| == |Leaves(t)|
  {
    match t
    case Leaf(_) => [d]
    case Node(l, r) => Depths(l, d + 1) + Depths(r, d + 1)
  }

  function Height(t: Tree): nat
  {
    match t
    case Leaf(_) => 0
    case Node(l, r) => 1 + (if Height(l) > Height(r) then Height(l) else Height(r))
  }

  function Weight(freq: seq<nat>, t: Tree): nat
  {
    match t
    case Leaf(x) => if x < |freq| then freq[x] else 0
    case Node(l, r) => Weight(freq, l) + Weight(freq, r)
  }

  /** Lowering a tree by one level adds one to every depth. */
  lemma {:induction false} DepthsDown(t: Tree, d: nat)
    ensures forall k :: 0 <= k < |Leaves(t)| ==> Depths(t, d + 1)[k] == Depths(t, d)[k] + 1
  {
    match t
    case Leaf(_) =>
    case Node(l, r) =>
      DepthsDown(l, d + 1);
      DepthsDown(r, d + 1);
  }

  lemma {:induction false} DepthsBounded(t: Tree, d: nat)
    ensures forall k :: 0 <= k < |Leaves(t)| ==> d <= Depths(t, d)[k] <= d + Height(t)
    ensures t.Node? ==> forall k :: 0 <= k < |Leaves(t)| ==> d < Depths(t, d)[k]
  {
    match t
    case Leaf(_) =>
    case Node(l, r) =>
      DepthsBounded(l, d + 1);
      DepthsBounded(r, d + 1);
  }

  // ---------------------------------------------------------------- sums over the frequencies

  function Sum(s: seq<nat>): nat
  {
    if s == [] then 0 else Sum(s[..|s| - 1]) + s[|s| - 1]
  }

  function NonZero(s: seq<nat>): nat
  {
    if s == [] then 0 else NonZero(s[..|s| - 1]) + (if s[|s| - 1] > 0 then 1 else 0)
  }

  lemma {:induction false} SumUpdate(s: seq<nat>, i: nat, x: nat)
    requires i < |s|
    ensures Sum(s[i := x]) == Sum(s) - s[i] + x
    ensures Sum(s) >= s[i]
  {
    var n := |s| - 1;
    if i == n {
      assert s[i := x][..n] == s[..n];
    } else {
      SumUpdate(s[..n], i, x);
      assert s[i := x][..n] == s[..n][i := x];
    }
  }

  lemma {:induction false} NonZeroUpdate(s: seq<nat>, i: nat, x: nat)
    requires i < |s|
    ensures NonZero(s[i := x]) == NonZero(s) - (if s[i] > 0 then 1 else 0) + (if x > 0 then 1 else 0)
    ensures s[i] > 0 ==> NonZero(s) > 0
  {
    var n := |s| - 1;
    if i == n {
      assert s[i := x][..n] == s[..n];
    } else {
      NonZeroUpdate(s[..n], i, x);
      assert s[i := x][..n] == s[..n][i := x];
    }
  }

  // ---------------------------------------------------------------- the merge

  /** i is the largest index, other than skip, with the least nonzero frequency. */
  ghost predicate IsLeast(freq: seq<nat>, skip: int, i: int)
  {
    && 0 <= i < |freq| && i != skip && freq[i] > 0
    && forall k :: 0 <= k < |freq| && k != skip && freq[k] > 0 ==> freq[i] < freq[k] || (freq[i] == freq[k] && k <= i)
  }

  ghost predicate NoneLeft(freq: seq<nat>, skip: int)
  {
    forall k :: 0 <= k < |freq| && k != skip ==> freq[k] == 0
  }

  /** The index IsLeast describes, or -1 when every other frequency is zero. */
  ghost function Least(freq: seq<nat>, skip: int): (i: int)
    ensures if i < 0 then i == -1 && NoneLeft(freq, skip) else IsLeast(freq, skip, i)
  {
    if freq == [] then -1
    else
      var n := |freq| - 1;
      var i := Least(freq[..n], skip);
      if n != skip && freq[n] > 0 && (i < 0 || freq[n] <= freq[i]) then n else i
  }

  lemma LeastUnique(freq: seq<nat>, skip: int, i: int)
    requires IsLeast(freq, skip, i)
    ensures Least(freq, skip) == i
  {
    var j := Least(freq, skip);
    assert freq[i] > 0;
  }

  lemma LeastNone(freq: seq<nat>, skip: int)
    requires NoneLeft(freq, skip)
    ensures Least(freq, skip) == -1
  {
  }

  /** A forest over the symbols: the trees at the indices with nonzero frequency are the live ones. */
  datatype State = State(freq: seq<nat>, forest: seq<Tree>)

  ghost predicate Shaped(s: State)
  {
    |s.freq| == |s.forest| == SYMBOLS
  }

  /** Joins the two lightest trees under the index of the lightest. */
  ghost function MergePair(s: State, v1: nat, v2: nat): (r: State)
    requires Shaped(s) && v1 < SYMBOLS && v2 < SYMBOLS
    ensures Shaped(r)
  {
    State(s.freq[v1 := s.freq[v1] + s.freq[v2]][v2 := 0],
          s.forest[v1 := Node(s.forest[v1], s.forest[v2])])
  }

  lemma MergePairCounts(s: State, v1: nat, v2: nat)
    requires Shaped(s) && v1 < SYMBOLS && v2 < SYMBOLS && v1 != v2
    requires s.freq[v1] > 0 && s.freq[v2] > 0
    ensures Sum(MergePair(s, v1, v2).freq) == Sum(s.freq)
    ensures s.freq[v1] + s.freq[v2] <= Sum(s.freq)
    ensures NonZero(MergePair(s, v1, v2).freq) == NonZero(s.freq) - 1
  {
    var f := s.freq[v1 := s.freq[v1] + s.freq[v2]];
    SumUpdate(s.freq, v1, s.freq[v1] + s.freq[v2]);
    SumUpdate(f, v2, 0);
    NonZeroUpdate(s.freq, v1, s.freq[v1] + s.freq[v2]);
    NonZeroUpdate(f, v2, 0);
    var z := s.freq[v1 := 0];
    SumUpdate(s.freq, v1, 0);
    SumUpdate(z, v2, 0);
  }

  /** Merging until one tree is left. */
  ghost function MergeAll(s: State): (r: State)
    requires Shaped(s)
    ensures Shaped(r)
    decreases NonZero(s.freq)
  {
    var v1 := Least(s.freq, -1);
    var v2 := Least(s.freq, v1);
    if v1 < 0 || v2 < 0 then s
    else
      MergePairCounts(s, v1, v2);
      MergeAll(MergePair(s, v1, v2))
  }

  ghost function InitialState(freq: seq<nat>): State
    requires |freq| == SYMBOLS
  {
    State(freq, seq(SYMBOLS, (i: nat) => Leaf(i)))
  }

  /** The tree the merge ends with. */
  ghost function HuffmanTree(freq: seq<nat>): Tree
    requires |freq| == SYMBOLS
  {
    var s := MergeAll(InitialState(freq));
    var v := Least(s.freq, -1);
    if v < 0 then Leaf(0) else s.forest[v]
  }

  // ---------------------------------------------------------------- what every merge keeps

  /** The tree at a live index starts with that index, holds distinct symbols that belong to it, and
      its frequency is the sum of theirs. */
  ghost predicate Live(f0: seq<nat>, s: State, owner: seq<nat>, h: nat)
    requires Shaped(s) && |owner| == |f0| == SYMBOLS && h < SYMBOLS
  {
    var leaves := Leaves(s.forest[h]);
    && leaves[0] == h
    && Distinct(leaves)
    && s.freq[h] == Weight(f0, s.forest[h])
    && forall x :: x in leaves ==> x < SYMBOLS && f0[x] > 0 && owner[x] == h
  }

  ghost predicate Home(f0: seq<nat>, s: State, owner: seq<nat>, x: nat)
    requires Shaped(s) && |owner| == SYMBOLS && x < SYMBOLS
  {
    owner[x] < SYMBOLS && s.freq[owner[x]] > 0 && x in Leaves(s.forest[owner[x]])
  }

  /** The live trees partition the symbols that had a frequency at the start. */
  ghost predicate Forest(f0: seq<nat>, s: State, owner: seq<nat>)
  {
    && Shaped(s) && |owner| == |f0| == SYMBOLS
    && (forall h :: 0 <= h < SYMBOLS && s.freq[h] > 0 ==> Live(f0, s, owner, h))
    && (forall x :: 0 <= x < SYMBOLS && f0[x] > 0 ==> Home(f0, s, owner, x))
  }

  ghost function EveryoneAlone(): (r: seq<nat>)
    ensures |r| == SYMBOLS && forall i :: 0 <= i < SYMBOLS ==> r[i] == i
  {
    seq(SYMBOLS, (i: nat) => i)
  }

  ghost function MergedOwner(owner: seq<nat>, v1: nat, v2: nat): (r: seq<nat>)
    ensures |r| == |owner|
  {
    seq(|owner|, x requires 0 <= x < |owner| => if owner[x] == v2 then v1 else owner[x])
  }

  lemma InitialForest(f0: seq<nat>)
    requires |f0| == SYMBOLS
    ensures Forest(f0, InitialState(f0), EveryoneAlone())
  {
  }

  lemma MergeForest(f0: seq<nat>, s: State, owner: seq<nat>, v1: nat, v2: nat)
    requires Forest(f0, s, owner) && v1 < SYMBOLS && v2 < SYMBOLS && v1 != v2
    requires s.freq[v1] > 0 && s.freq[v2] > 0
    ensures Forest(f0, MergePair(s, v1, v2), MergedOwner(owner, v1, v2))
  {
    var s', owner' := MergePair(s, v1, v2), MergedOwner(owner, v1, v2);
    forall h | 0 <= h < SYMBOLS && s'.freq[h] > 0
      ensures Live(f0, s', owner', h)
    {
      assert Live(f0, s, owner, h);
      if h == v1 {
        assert Live(f0, s, owner, v2);
        DistinctConcat(Leaves(s.forest[v1]), Leaves(s.forest[v2]));
      }
    }
    forall x | 0 <= x < SYMBOLS && f0[x] > 0
      ensures Home(f0, s', owner', x)
    {
      assert Home(f0, s, owner, x);
    }
  }

  lemma {:induction false} MergeAllForest(f0: seq<nat>, s: State, owner: seq<nat>) returns (owner': seq<nat>)
    requires Forest(f0, s, owner)
    ensures Forest(f0, MergeAll(s), owner')
    decreases NonZero(s.freq)
  {
    var v1 := Least(s.freq, -1);
    var v2 := Least(s.freq, v1);
    if v1 < 0 || v2 < 0 {
      owner' := owner;
    } else {
      MergePairCounts(s, v1, v2);
      MergeForest(f0, s, owner, v1, v2);
      owner' := MergeAllForest(f0, MergePair(s, v1, v2), MergedOwner(owner, v1, v2));
    }
  }

  /** The merge ends with one live tree. */
  lemma {:induction false} MergeAllEnds(s: State)
    requires Shaped(s) && !NoneLeft(s.freq, -1)
    ensures var r := MergeAll(s); var v := Least(r.freq, -1); v >= 0 && NoneLeft(r.freq, v)
    ensures NonZero(s.freq) >= 2 ==> var r := MergeAll(s); r.forest[Least(r.freq, -1)].Node?
    decreases NonZero(s.freq)
  {
    var v1 := Least(s.freq, -1);
    var v2 := Least(s.freq, v1);
    if v2 >= 0 {
      MergePairCounts(s, v1, v2);
      var s' := MergePair(s, v1, v2);
      assert s'.freq[v1] > 0;
      MergeAllEnds(s');
      if NonZero(s'.freq) < 2 {
        OneLeft(s'.freq, v1);
        LeastNone(s'.freq, v1);
        LeastUnique(s'.freq, -1, v1);
      }
    } else {
      OneNonZero(s.freq, v1);
    }
  }

  lemma {:induction false} OneNonZero(f: seq<nat>, v: nat)
    requires v < |f| && NoneLeft(f, v)
    ensures NonZero(f) <= 1
  {
    NonZeroUpdate(f, v, 0);
    AllZero(f[v := 0]);
  }

  lemma {:induction false} AllZero(f: seq<nat>)
    requires forall k :: 0 <= k < |f| ==> f[k] == 0
    ensures NonZero(f) == 0 && Sum(f) == 0
  {
    if f != [] {
      AllZero(f[..|f| - 1]);
    }
  }

  lemma OneLeft(f: seq<nat>, v: nat)
    requires v < |f| && f[v] > 0 && NonZero(f) <= 1
    ensures NoneLeft(f, v)
  {
    forall k | 0 <= k < |f| && k != v ensures f[k] == 0 {
      NonZeroUpdate(f, v, 0);
      NonZeroUpdate(f[v := 0], k, 0);
    }
  }

  /** The tree holds every symbol with a frequency exactly once, and nothing else. */
  lemma HuffmanTreeLeaves(freq: seq<nat>)
    requires |freq| == SYMBOLS && !NoneLeft(freq, -1)
    ensures var t := HuffmanTree(freq);
            && Distinct(Leaves(t))
            && (forall x :: x in Leaves(t) <==> 0 <= x < SYMBOLS && freq[x] > 0)
            && (NonZero(freq) >= 2 ==> t.Node?)
  {
    var s := InitialState(freq);
    InitialForest(freq);
    var owner := MergeAllForest(freq, s, EveryoneAlone());
    MergeAllEnds(s);
    var r := MergeAll(s);
    var v := Least(r.freq, -1);
    assert Live(freq, r, owner, v);
    forall x | 0 <= x < SYMBOLS && freq[x] > 0 ensures x in Leaves(r.forest[v]) {
      assert Home(freq, r, owner, x);
    }
  }

  // ---------------------------------------------------------------- depth

  function Fib(n: nat): nat
  {
    if n < 2 then n else Fib(n - 1) + Fib(n - 2)
  }

  lemma {:induction false} FibMono(m: nat, n: nat)
    requires m <= n
    ensures Fib(m) <= Fib(n)
    decreases n
  {
    if m < n {
      FibMono(m, n - 1);
    }
  }

  /** Every subtree weighs at least the Fibonacci number two beyond its height. */
  ghost predicate FibTree(freq: seq<nat>, t: Tree)
  {
    && Weight(freq, t) >= Fib(Height(t) + 2)
    && (t.Node? ==> FibTree(freq, t.left) && FibTree(freq, t.right))
  }

  /** Live trees weigh at least as much as every child that was merged before. */
  ghost predicate Balanced(f0: seq<nat>, s: State)
  {
    && Shaped(s)
    && (forall h :: 0 <= h < SYMBOLS && s.freq[h] > 0 ==>
          s.freq[h] == Weight(f0, s.forest[h]) && FibTree(f0, s.forest[h]))
    && (forall h, g | 0 <= h < SYMBOLS && 0 <= g < SYMBOLS && g != h ::
          s.freq[h] > 0 && s.freq[g] > 0 && s.forest[h].Node? ==> Heavier(f0, s.forest[h], s.freq[g]))
  }

  ghost predicate Heavier(f0: seq<nat>, t: Tree, w: nat)
    requires t.Node?
  {
    Weight(f0, t.left) <= w && Weight(f0, t.right) <= w
  }

  lemma JoinFib(f0: seq<nat>, a: Tree, b: Tree)
    requires FibTree(f0, a) && FibTree(f0, b) && Height(a) >= Height(b)
    requires Weight(f0, b) > 0
    requires a.Node? ==> Heavier(f0, a, Weight(f0, b))
    ensures Weight(f0, a) + Weight(f0, b) >= Fib(Height(a) + 3)
  {
    FibStep(Height(a));
    if a.Node? {
      TallerChild(f0, a);
    }
  }

  /** Some child of a tree has a height of one less, and the weight for it. */
  lemma TallerChild(f0: seq<nat>, a: Tree)
    requires FibTree(f0, a) && a.Node?
    ensures Weight(f0, a.left) >= Fib(Height(a) + 1) || Weight(f0, a.right) >= Fib(Height(a) + 1)
  {
    var taller := if Height(a.left) > Height(a.right) then a.left else a.right;
    assert FibTree(f0, taller);
    assert Height(taller) + 2 == Height(a) + 1;
  }

  lemma FibStep(n: nat)
    ensures Fib(n + 3) == Fib(n + 2) + Fib(n + 1)
    ensures Fib(1) == 1
  {
  }

  lemma MergeBalanced(f0: seq<nat>, s: State, v1: nat, v2: nat)
    requires Balanced(f0, s) && IsLeast(s.freq, -1, v1) && IsLeast(s.freq, v1, v2)
    ensures Balanced(f0, MergePair(s, v1, v2))
  {
    var s' := MergePair(s, v1, v2);
    var a, b := s.forest[v1], s.forest[v2];
    if Height(a) >= Height(b) {
      JoinFib(f0, a, b);
    } else {
      JoinFib(f0, b, a);
    }
    assert FibTree(f0, Node(a, b));
    forall h, g | 0 <= h < SYMBOLS && 0 <= g < SYMBOLS && s'.freq[h] > 0 && s'.freq[g] > 0 && g != h
                  && s'.forest[h].Node?
      ensures Heavier(f0, s'.forest[h], s'.freq[g])
    {
      if h != v1 {
        assert Heavier(f0, s.forest[h], s.freq[g]);
      }
    }
  }

  lemma {:induction false} MergeAllBalanced(f0: seq<nat>, s: State)
    requires Balanced(f0, s)
    ensures Balanced(f0, MergeAll(s)) && Sum(MergeAll(s).freq) == Sum(s.freq)
    decreases NonZero(s.freq)
  {
    var v1 := Least(s.freq, -1);
    var v2 := Least(s.freq, v1);
    if v1 >= 0 && v2 >= 0 {
      MergePairCounts(s, v1, v2);
      MergeBalanced(f0, s, v1, v2);
      MergeAllBalanced(f0, MergePair(s, v1, v2));
    }
  }

  /** A tree of height n takes a total frequency of at least Fib(n + 2). */
  lemma HuffmanTreeHeight(freq: seq<nat>)
    requires |freq| == SYMBOLS && !NoneLeft(freq, -1)
    ensures Fib(Height(HuffmanTree(freq)) + 2) <= Sum(freq)
  {
    var s := InitialState(freq);
    InitialBalanced(freq);
    MergeAllBalanced(freq, s);
    MergeAllEnds(s);
    LastTree(freq, MergeAll(s), Least(MergeAll(s).freq, -1));
  }

  lemma InitialBalanced(freq: seq<nat>)
    requires |freq| == SYMBOLS
    ensures Balanced(freq, InitialState(freq))
  {
    assert Fib(2) == 1;
  }

  /** When one tree is left, it weighs what is left in total. */
  lemma LastTree(f0: seq<nat>, r: State, v: int)
    requires Balanced(f0, r) && 0 <= v < SYMBOLS && r.freq[v] > 0
    requires forall k :: 0 <= k < SYMBOLS && k != v ==> r.freq[k] == 0
    ensures Fib(Height(r.forest[v]) + 2) <= Sum(r.freq)
  {
    SumUpdate(r.freq, v, 0);
    assert FibTree(f0, r.forest[v]);
  }

  lemma Fib35(n: nat)
    requires n == 35
    ensures Fib(n) == 9227465
  {
    assert Fib(10) == 55 && Fib(11) == 89;
    assert Fib(12) == 144 && Fib(13) == 233 && Fib(14) == 377 && Fib(15) == 610 && Fib(16) == 987;
    assert Fib(17) == 1597 && Fib(18) == 2584 && Fib(19) == 4181 && Fib(20) == 6765 && Fib(21) == 10946;
    assert Fib(22) == 17711 && Fib(23) == 28657 && Fib(24) == 46368 && Fib(25) == 75025;
    assert Fib(26) == 121393 && Fib(27) == 196418 && Fib(28) == 317811 && Fib(29) == 514229;
    assert Fib(30) == 832040 && Fib(31) == 1346269 && Fib(32) == 2178309 && Fib(33) == 3524578;
    assert Fib(34) == 5702887;
  }

  /** Below the 35th Fibonacci number in total, no code is longer than 32 bits. */
  lemma CodeSizesFit(freq: seq<nat>)
    requires |freq| == SYMBOLS && !NoneLeft(freq, -1) && Sum(freq) < 9227465
    ensures Height(HuffmanTree(freq)) <= 32
  {
    HuffmanTreeHeight(freq);
    if Height(HuffmanTree(freq)) > 32 {
      FibFrom35(Height(HuffmanTree(freq)) + 2);
    }
  }

  lemma FibFrom35(n: nat)
    requires n >= 35
    ensures Fib(n) >= 9227465
  {
    var m := n - (n - 35);
    Fib35(m);
    FibMono(m, n);
  }

  // ---------------------------------------------------------------- the merge in place

  /** The others links run through the symbols of a tree from left to right. */
  ghost predicate Linked(others: seq<int>, t: Tree)
  {
    var leaves := Leaves(t);
    && (forall k :: 0 <= k < |leaves| ==> leaves[k] < |others|)
    && (forall k :: 0 <= k < |leaves| - 1 ==> others[leaves[k]] == leaves[k + 1])
    && others[leaves[|leaves| - 1]] == -1
  }

  /** The recorded sizes of a tree's symbols are their depths below a root at depth d. */
  ghost predicate Sized(codesize: seq<nat>, t: Tree, d: nat)
  {
    var leaves, depths := Leaves(t), Depths(t, d);
    forall k :: 0 <= k < |leaves| ==> leaves[k] < |codesize| && codesize[leaves[k]] == depths[k]
  }

  /** The arrays describe the forest. */
  ghost predicate Represents(others: seq<int>, codesize: seq<nat>, f0: seq<nat>, s: State)
  {
    && Shaped(s) && |others| == |codesize| == |f0| == SYMBOLS
    && (forall h :: 0 <= h < SYMBOLS && s.freq[h] > 0 ==>
          Linked(others, s.forest[h]) && Sized(codesize, s.forest[h], 0))
    && (forall x :: 0 <= x < SYMBOLS && f0[x] == 0 ==> codesize[x] == 0)
  }

  method FindLeast(freq: array<nat>, skip: int) returns (v: int)
    requires forall i :: 0 <= i < freq.Length ==> freq[i] <= 0xFFFF_FFFF
    ensures v == Least(freq[..], skip)
  {
    v := -1;
    var least := 0xFFFF_FFFF;
    for i := 0 to freq.Length
      invariant -1 <= v < i
      invariant if v < 0 then least == 0xFFFF_FFFF && NoneLeft(freq[..i], skip)
                else IsLeast(freq[..i], skip, v) && least == freq[v]
    {
      if freq[i] > 0 && freq[i] <= least && i != skip {
        least := freq[i];
        v := i;
      }
    }
    assert freq[..freq.Length] == freq[..];
    if v >= 0 {
      LeastUnique(freq[..], skip, v);
    }
  }

  /** Adds one to the size of every symbol on the chain of tree t; returns the last of them. */
  method LowerChain(others: array<int>, codesize: array<nat>, head: nat, ghost t: Tree) returns (last: nat)
    requires others.Length == codesize.Length == SYMBOLS && others as object != codesize
    requires Linked(others[..], t) && Distinct(Leaves(t)) && Leaves(t)[0] == head
    requires Sized(codesize[..], t, 0)
    modifies codesize
    ensures Sized(codesize[..], t, 1)
    ensures forall x :: 0 <= x < SYMBOLS && x !in Leaves(t) ==> codesize[x] == old(codesize[x])
    ensures last == Leaves(t)[|Leaves(t)| - 1]
  {
    ghost var leaves, depths := Leaves(t), Depths(t, 0);
    ghost var links := others[..];
    assert leaves[0] < SYMBOLS;
    last := head;
    ghost var k := 0;
    codesize[last] := codesize[last] + 1;
    while others[last] >= 0
      invariant others[..] == links
      invariant 0 <= k < |leaves| && last == leaves[k]
      invariant k < |leaves| - 1 ==> others[last] == leaves[k + 1]
      invariant forall m :: 0 <= m < |leaves| ==> codesize[leaves[m]] == if m <= k then depths[m] + 1 else depths[m]
      invariant forall x :: 0 <= x < SYMBOLS && x !in leaves ==> codesize[x] == old(codesize[x])
      decreases |leaves| - k
    {
      last := others[last];
      codesize[last] := codesize[last] + 1;
      k := k + 1;
    }
    RaisedByOne(codesize[..], t);
  }

  lemma RaisedByOne(sizes: seq<nat>, t: Tree)
    requires forall k :: 0 <= k < |Leaves(t)| ==>
               Leaves(t)[k] < |sizes| && sizes[Leaves(t)[k]] == Depths(t, 0)[k] + 1
    ensures Sized(sizes, t, 1)
  {
    DepthsDown(t, 0);
    forall k | 0 <= k < |Leaves(t)| ensures sizes[Leaves(t)[k]] == Depths(t, 1)[k] {
      assert Depths(t, 0 + 1)[k] == Depths(t, 0)[k] + 1;
    }
  }

  /** The second chain is hung behind the first, and every symbol of both goes down a level. */
  method JoinChains(others: array<int>, codesize: array<nat>, v1: nat, v2: nat,
                    ghost f0: seq<nat>, ghost s: State, ghost owner: seq<nat>)
    requires others.Length == codesize.Length == SYMBOLS && others as object != codesize
    requires Represents(others[..], codesize[..], f0, s) && Forest(f0, s, owner)
    requires v1 < SYMBOLS && v2 < SYMBOLS && v1 != v2 && s.freq[v1] > 0 && s.freq[v2] > 0
    modifies others, codesize
    ensures Represents(others[..], codesize[..], f0, MergePair(s, v1, v2))
  {
    ghost var t1, t2 := s.forest[v1], s.forest[v2];
    ghost var links, sizes := others[..], codesize[..];
    assert Live(f0, s, owner, v1) && Live(f0, s, owner, v2);
    var last1 := LowerChain(others, codesize, v1, t1);
    others[last1] := v2;
    ghost var links1, sizes1 := others[..], codesize[..];
    assert links1 == links[last1 := v2];
    LinkedElsewhere(links, links1, t2, last1);
    SizedElsewhere(sizes, sizes1, t1, t2);
    var last2 := LowerChain(others, codesize, v2, t2);
    JoinedChain(links, links1, sizes1, codesize[..], t1, t2);
    MergedRepresents(links, links1, sizes, sizes1, codesize[..], f0, s, owner, v1, v2, last1);
  }

  /** One round of Figure K.1 after the two least frequencies are found. */
  method MergeChains(freq: array<nat>, others: array<int>, codesize: array<nat>, v1: nat, v2: nat,
                     ghost f0: seq<nat>, ghost s: State, ghost owner: seq<nat>)
    requires freq.Length == others.Length == codesize.Length == SYMBOLS
    requires freq != codesize && others as object != freq && others as object != codesize
    requires freq[..] == s.freq && Represents(others[..], codesize[..], f0, s) && Forest(f0, s, owner)
    requires v1 < SYMBOLS && v2 < SYMBOLS && v1 != v2 && freq[v1] > 0 && freq[v2] > 0
    modifies freq, others, codesize
    ensures freq[..] == MergePair(s, v1, v2).freq
    ensures Represents(others[..], codesize[..], f0, MergePair(s, v1, v2))
  {
    freq[v1] := freq[v1] + freq[v2];
    freq[v2] := 0;
    ghost var joined := freq[..];
    assert joined == MergePair(s, v1, v2).freq;
    JoinChains(others, codesize, v1, v2, f0, s, owner);
    assert freq[..] == joined;
  }

  /** The joined chain beside all the others. */
  lemma MergedRepresents(links: seq<int>, links': seq<int>, sizes: seq<nat>, sizes1: seq<nat>, sizes': seq<nat>,
                         f0: seq<nat>, s: State, owner: seq<nat>, v1: nat, v2: nat, last1: nat)
    requires Represents(links, sizes, f0, s) && Forest(f0, s, owner) && v1 < SYMBOLS && v2 < SYMBOLS && v1 != v2
    requires s.freq[v1] > 0 && s.freq[v2] > 0 && |links'| == |sizes1| == |sizes'| == SYMBOLS
    requires Linked(links', Node(s.forest[v1], s.forest[v2])) && Sized(sizes', Node(s.forest[v1], s.forest[v2]), 0)
    requires last1 in Leaves(s.forest[v1]) && forall x :: 0 <= x < SYMBOLS && x != last1 ==> links'[x] == links[x]
    requires forall x :: 0 <= x < SYMBOLS && x !in Leaves(s.forest[v1]) ==> sizes1[x] == sizes[x]
    requires forall x :: 0 <= x < SYMBOLS && x !in Leaves(s.forest[v2]) ==> sizes'[x] == sizes1[x]
    ensures Represents(links', sizes', f0, MergePair(s, v1, v2))
  {
    var s' := MergePair(s, v1, v2);
    forall h | 0 <= h < SYMBOLS && s'.freq[h] > 0
      ensures Linked(links', s'.forest[h]) && Sized(sizes', s'.forest[h], 0)
    {
      if h != v1 {
        OtherTree(f0, s, owner, v1, v2, h);
        ChainElsewhere(links, links', sizes, sizes1, sizes', s.forest[v1], s.forest[v2], s.forest[h], last1);
      }
    }
    assert Live(f0, s, owner, v1) && Live(f0, s, owner, v2);
  }

  /** The symbols of a third tree are in neither of the two. */
  lemma OtherTree(f0: seq<nat>, s: State, owner: seq<nat>, v1: nat, v2: nat, h: nat)
    requires Forest(f0, s, owner) && v1 < SYMBOLS && v2 < SYMBOLS && h < SYMBOLS && h != v1 && h != v2
    requires s.freq[v1] > 0 && s.freq[v2] > 0 && s.freq[h] > 0
    ensures forall x :: x in Leaves(s.forest[h]) ==> x !in Leaves(s.forest[v1]) && x !in Leaves(s.forest[v2])
  {
    assert Live(f0, s, owner, v1) && Live(f0, s, owner, v2) && Live(f0, s, owner, h);
  }

  /** Its chain and its sizes stay as they were. */
  lemma ChainElsewhere(links: seq<int>, links': seq<int>, sizes: seq<nat>, sizes1: seq<nat>, sizes': seq<nat>,
                       t1: Tree, t2: Tree, t: Tree, last1: nat)
    requires Linked(links, t) && Sized(sizes, t, 0) && |links'| == |links| && |sizes1| == |sizes'| == |sizes|
    requires forall x :: x in Leaves(t) ==> x !in Leaves(t1) && x !in Leaves(t2)
    requires last1 in Leaves(t1) && forall x :: 0 <= x < |links| && x != last1 ==> links'[x] == links[x]
    requires forall x :: 0 <= x < |sizes| && x !in Leaves(t1) ==> sizes1[x] == sizes[x]
    requires forall x :: 0 <= x < |sizes| && x !in Leaves(t2) ==> sizes'[x] == sizes1[x]
    ensures Linked(links', t) && Sized(sizes', t, 0)
  {
    LinkedElsewhere(links, links', t, last1);
    SizedElsewhere(sizes, sizes1, t1, t);
    SizedElsewhere(sizes1, sizes', t2, t);
  }

  /** A chain does not notice a change of someone else's link. */
  lemma LinkedElsewhere(links: seq<int>, links': seq<int>, t: Tree, changed: nat)
    requires Linked(links, t) && |links'| == |links| && changed !in Leaves(t)
    requires forall x :: 0 <= x < |links| && x != changed ==> links'[x] == links[x]
    ensures Linked(links', t)
  {
    var leaves := Leaves(t);
    forall k | 0 <= k < |leaves| ensures links'[leaves[k]] == links[leaves[k]] {
      assert leaves[k] in leaves;
    }
  }

  lemma SizedElsewhere(sizes: seq<nat>, sizes': seq<nat>, changed: Tree, t: Tree)
    requires Sized(sizes, t, 0) && |sizes'| == |sizes|
    requires forall x :: 0 <= x < |sizes| && x !in Leaves(changed) ==> sizes'[x] == sizes[x]
    requires forall x :: x in Leaves(t) ==> x !in Leaves(changed)
    ensures Sized(sizes', t, 0)
  {
    var leaves := Leaves(t);
    forall k | 0 <= k < |leaves| ensures sizes'[leaves[k]] == sizes[leaves[k]] {
      assert leaves[k] in leaves;
    }
  }

  /** Two chains, one hung behind the other, are the chain of the joined tree. */
  lemma JoinedChain(links: seq<int>, links': seq<int>, sizes: seq<nat>, sizes': seq<nat>, t1: Tree, t2: Tree)
    requires Linked(links, t1) && Linked(links', t2) && |links'| == |links| && |sizes'| == |sizes|
    requires Distinct(Leaves(t1)) && forall x :: x in Leaves(t2) ==> x !in Leaves(t1)
    requires links' == links[Leaves(t1)[|Leaves(t1)| - 1] := Leaves(t2)[0]]
    requires Sized(sizes, t1, 1) && Sized(sizes', t2, 1)
    requires forall x :: 0 <= x < |sizes| && x !in Leaves(t2) ==> sizes'[x] == sizes[x]
    ensures Linked(links', Node(t1, t2)) && Sized(sizes', Node(t1, t2), 0)
  {
    var a, b := Leaves(t1), Leaves(t2);
    var leaves := Leaves(Node(t1, t2));
    assert leaves == a + b;
    forall k | 0 <= k < |leaves| - 1 ensures links'[leaves[k]] == leaves[k + 1] {
      if k >= |a| {
        assert leaves[k] == b[k - |a|] && leaves[k + 1] == b[k + 1 - |a|];
      }
    }
    forall k | 0 <= k < |a| ensures sizes'[a[k]] == sizes[a[k]] {
      assert a[k] in a;
    }
  }

  lemma InitialArrays(others: seq<int>, codesize: seq<nat>, f0: seq<nat>)
    requires |f0| == |others| == |codesize| == SYMBOLS
    requires forall x :: 0 <= x < SYMBOLS ==> others[x] == -1 && codesize[x] == 0
    ensures Represents(others, codesize, f0, InitialState(f0))
  {
  }

  /** When fewer than two frequencies are left, the arrays describe the Huffman tree. */
  lemma FinishedMerge(others: seq<int>, codesize: seq<nat>, f0: seq<nat>, s: State)
    requires |f0| == SYMBOLS && !NoneLeft(f0, -1)
    requires Represents(others, codesize, f0, s) && MergeAll(s) == MergeAll(InitialState(f0))
    requires !CanMerge(s)
    ensures Sized(codesize, HuffmanTree(f0), 0)
  {
    MergeAllEnds(InitialState(f0));
  }

  /** Two trees are left to join. */
  ghost predicate CanMerge(s: State)
  {
    Least(s.freq, -1) >= 0 && Least(s.freq, Least(s.freq, -1)) >= 0
  }

  ghost function NextState(s: State): State
    requires Shaped(s) && CanMerge(s)
  {
    MergePair(s, Least(s.freq, -1), Least(s.freq, Least(s.freq, -1)))
  }

  ghost function NextOwner(s: State, owner: seq<nat>): seq<nat>
    requires Shaped(s) && CanMerge(s)
  {
    MergedOwner(owner, Least(s.freq, -1), Least(s.freq, Least(s.freq, -1)))
  }

  lemma NextKeeps(f0: seq<nat>, s: State, owner: seq<nat>)
    requires Forest(f0, s, owner) && CanMerge(s)
    ensures Forest(f0, NextState(s), NextOwner(s, owner))
    ensures MergeAll(NextState(s)) == MergeAll(s)
    ensures Sum(NextState(s).freq) == Sum(s.freq)
    ensures NonZero(NextState(s).freq) < NonZero(s.freq)
  {
    var v1 := Least(s.freq, -1);
    var v2 := Least(s.freq, v1);
    MergePairCounts(s, v1, v2);
    MergeForest(f0, s, owner, v1, v2);
  }

  /** One round of the loop: false when fewer than two frequencies are left. */
  method MergeRound(freq: array<nat>, others: array<int>, codesize: array<nat>,
                    ghost f0: seq<nat>, ghost s: State, ghost owner: seq<nat>) returns (more: bool)
    requires freq.Length == others.Length == codesize.Length == SYMBOLS
    requires freq != codesize && others as object != freq && others as object != codesize
    requires freq[..] == s.freq && Represents(others[..], codesize[..], f0, s) && Forest(f0, s, owner)
    requires Sum(s.freq) <= 0xFFFF_FFFF
    modifies freq, others, codesize
    ensures more == CanMerge(s)
    ensures more ==> freq[..] == NextState(s).freq && Represents(others[..], codesize[..], f0, NextState(s))
    ensures !more ==> Represents(others[..], codesize[..], f0, s)
  {
    BelowSum(s.freq);
    var v1 := FindLeast(freq, -1);
    if v1 < 0 {
      return false;
    }
    var v2 := FindLeast(freq, v1);
    if v2 < 0 {
      return false;
    }
    MergeChains(freq, others, codesize, v1, v2, f0, s, owner);
    return true;
  }

  /** Figure K.1: the code size of every symbol is its depth in the Huffman tree, and 0 without one. */
  method FindCodeSizes(freq: array<nat>) returns (codesize: array<nat>)
    requires freq.Length == SYMBOLS && Sum(freq[..]) <= 0xFFFF_FFFF && !NoneLeft(freq[..], -1)
    modifies freq
    ensures fresh(codesize) && codesize.Length == SYMBOLS
    ensures Sized(codesize[..], HuffmanTree(old(freq[..])), 0)
    ensures forall x :: 0 <= x < SYMBOLS && old(freq[x]) == 0 ==> codesize[x] == 0
  {
    ghost var f0 := freq[..];
    var others := new int[SYMBOLS](_ => -1);
    codesize := new nat[SYMBOLS](_ => 0);
    ghost var s, owner := InitialState(f0), EveryoneAlone();
    InitialForest(f0);
    InitialArrays(others[..], codesize[..], f0);
    var more := true;
    while more
      invariant Represents(others[..], codesize[..], f0, s)
      invariant more ==> freq[..] == s.freq && Forest(f0, s, owner)
      invariant !more ==> !CanMerge(s)
      invariant MergeAll(s) == MergeAll(InitialState(f0))
      invariant Sum(s.freq) <= 0xFFFF_FFFF
      decreases more, NonZero(s.freq)
    {
      more := MergeRound(freq, others, codesize, f0, s, owner);
      if more {
        NextKeeps(f0, s, owner);
        s, owner := NextState(s), NextOwner(s, owner);
      }
    }
    FinishedMerge(others[..], codesize[..], f0, s);
  }

  lemma {:induction false} BelowSum(f: seq<nat>)
    ensures forall i :: 0 <= i < |f| ==> f[i] <= Sum(f)
  {
    forall i | 0 <= i < |f| ensures f[i] <= Sum(f) {
      SumUpdate(f, i, 0);
    }
  }
}

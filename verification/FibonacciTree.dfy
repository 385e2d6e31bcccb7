/** Fibonacci frequencies: the bound below which no code size leaves its array is sharp. */
module FibonacciTree {
  import opened HuffmanMerge
  import opened HuffmanOptimality
  import opened HuffmanOptimize
  import opened PrefixCodes

  // The reserved symbol has frequency 1 and symbol 34 - k the Fibonacci number k, for k from 1 to 33. Before
  // merge k the reserved symbol and the first k - 1 others are one tree.

  type Numbers = fib: seq<nat> | |fib| == 36 witness seq(36, _ => 0)

  /** The Fibonacci numbers, as far as the merges depend on them. */
  ghost predicate Fibonacci(fib: Numbers)
  {
    && fib[1] == fib[2] == 1
    && (forall i, j :: 0 <= i < 34 && j == i + 2 ==> fib[j] == fib[i + 1] + fib[i])
    && (forall i :: 2 <= i < 36 ==> 0 < fib[i])
    && (forall i, j :: 2 <= i < j < 36 ==> fib[i] < fib[j])
  }

  function FirstNumbers(): Numbers
  {
    seq(36, (i: nat) => Fib(i))
  }

  lemma FibGrows(m: nat, n: nat)
    requires 2 <= m < n
    ensures 0 < Fib(m) < Fib(n)
  {
    FibMono(m + 1, n);
    FibMono(1, m - 1);
    assert Fib(m + 1) == Fib(m) + Fib(m - 1);
    FibMono(2, m);
  }

  lemma FibSum(i: nat)
    ensures Fib(i + 2) == Fib(i + 1) + Fib(i)
  {
  }

  lemma NumberAt(i: nat)
    requires i < 36
    ensures FirstNumbers()[i] == Fib(i)
  {
  }

  lemma FirstNumbersGrow(fib: Numbers)
    requires fib == FirstNumbers()
    ensures forall i :: 2 <= i < 36 ==> 0 < fib[i]
    ensures forall i, j :: 2 <= i < j < 36 ==> fib[i] < fib[j]
  {
    forall i | 2 <= i < 36 ensures 0 < fib[i] {
      FibGrows(i, i + 1);
      NumberAt(i);
    }
    forall i, j | 2 <= i < j < 36 ensures fib[i] < fib[j] {
      FibGrows(i, j);
      NumberAt(i);
      NumberAt(j);
    }
  }

  lemma FirstNumbersAdd(fib: Numbers)
    requires fib == FirstNumbers()
    ensures forall i, j :: 0 <= i < 34 && j == i + 2 ==> fib[j] == fib[i + 1] + fib[i]
  {
    forall i, j | 0 <= i < 34 && j == i + 2 ensures fib[j] == fib[i + 1] + fib[i] {
      FibSum(i);
      NumberAt(i);
      NumberAt(i + 1);
      NumberAt(j);
    }
  }

  lemma FirstNumbersBegin(fib: Numbers, one: nat, two: nat)
    requires fib == FirstNumbers() && one == 1 && two == 2
    ensures fib[one] == fib[two] == 1
  {
    NumberAt(one);
    NumberAt(two);
  }

  lemma LastNumber(fib: Numbers, n: nat)
    requires fib == FirstNumbers() && n == 35
    ensures fib[n] == 9227465
  {
    NumberAt(n);
    Fib35(n);
  }

  /** Where that tree is kept. */
  function Chain(k: nat): nat
    requires 1 <= k <= 34
  {
    if k <= 2 then RESERVED else 35 - k
  }

  ghost function FibFreq(fib: Numbers, k: nat): (freq: seq<nat>)
    requires 1 <= k <= 34
    ensures |freq| == SYMBOLS
  {
    seq(SYMBOLS, (x: nat) => if x == Chain(k) then fib[k + 1] else if 1 <= x <= 34 - k then fib[34 - x] else 0)
  }

  ghost predicate ChainState(fib: Numbers, s: State, k: nat)
  {
    && 1 <= k <= 34 && Shaped(s) && s.freq == FibFreq(fib, k) && Height(s.forest[Chain(k)]) == k - 1
    && forall x :: 1 <= x <= 34 - k ==> s.forest[x].Leaf?
  }

  /** The two trees of merge k: the next leaf and the chain. The first time the chain is the later symbol. */
  function First(k: nat): nat
    requires 1 <= k <= 33
  {
    if k == 1 then RESERVED else 34 - k
  }

  function Second(k: nat): nat
    requires 1 <= k <= 33
  {
    if k == 1 then 33 else Chain(k)
  }

  lemma FirstIsLeast(fib: Numbers, k: nat)
    requires Fibonacci(fib) && 1 <= k <= 33
    ensures IsLeast(FibFreq(fib, k), -1, First(k)) && IsLeast(FibFreq(fib, k), First(k), Second(k))
  {
  }

  lemma NextFreq(fib: Numbers, k: nat)
    requires Fibonacci(fib) && 1 <= k <= 33
    ensures var f, v1, v2 := FibFreq(fib, k), First(k), Second(k);
            FibFreq(fib, k + 1) == f[v1 := f[v1] + f[v2]][v2 := 0]
  {
  }

  lemma NextHeights(fib: Numbers, s: State, k: nat)
    requires ChainState(fib, s, k) && k <= 33
    ensures var next := MergePair(s, First(k), Second(k));
            && Height(next.forest[Chain(k + 1)]) == k
            && forall x :: 1 <= x <= 33 - k ==> next.forest[x].Leaf?
  {
    assert First(k) == Chain(k + 1);
    assert s.forest[34 - k].Leaf?;
  }

  lemma ChainNumbers(fib: Numbers, s: State, k: nat)
    requires Fibonacci(fib) && ChainState(fib, s, k) && k <= 33
    ensures MergeAll(s) == MergeAll(MergePair(s, First(k), Second(k)))
    ensures Sum(MergePair(s, First(k), Second(k)).freq) == Sum(s.freq)
    ensures NonZero(MergePair(s, First(k), Second(k)).freq) == NonZero(s.freq) - 1
  {
    FirstIsLeast(fib, k);
    MergeStep(s, First(k), Second(k));
    MergePairCounts(s, First(k), Second(k));
  }

  lemma ChainStep(fib: Numbers, s: State, k: nat)
    requires Fibonacci(fib) && ChainState(fib, s, k) && k <= 33
    ensures ChainState(fib, MergePair(s, First(k), Second(k)), k + 1)
  {
    NextFreq(fib, k);
    NextHeights(fib, s, k);
    assert MergePair(s, First(k), Second(k)).freq == FibFreq(fib, k + 1);
  }

  lemma {:induction false} ChainMerges(fib: Numbers, s: State, k: nat)
    requires Fibonacci(fib) && ChainState(fib, s, k)
    ensures var end := MergeAll(s); Least(end.freq, -1) == 1 && Height(end.forest[1]) == 33
    ensures Sum(FibFreq(fib, k)) == fib[35] && NonZero(FibFreq(fib, k)) == 35 - k
    decreases 34 - k
  {
    if k == 34 {
      LastState(fib, s);
    } else {
      ChainNumbers(fib, s, k);
      ChainStep(fib, s, k);
      ChainMerges(fib, MergePair(s, First(k), Second(k)), k + 1);
    }
  }

  lemma LastState(fib: Numbers, s: State)
    requires Fibonacci(fib) && ChainState(fib, s, 34)
    ensures MergeAll(s) == s && Least(s.freq, -1) == 1
    ensures Sum(FibFreq(fib, 34)) == fib[35] && NonZero(FibFreq(fib, 34)) == 1
  {
    assert s.freq[1] == fib[35];
    MergeEnd(s, 1);
    SumUpdate(s.freq, 1, 0);
    NonZeroUpdate(s.freq, 1, 0);
    AllZero(s.freq[1 := 0]);
  }

  /** 34 symbols whose frequencies sum to 9227465, the reserved one among them, give a code of 33 bits: one
      more than the array of counts has room for. */
  lemma CodeSizeBoundIsSharp()
    ensures var freq := FibFreq(FirstNumbers(), 1);
            && Sum(freq) == 9227465 && freq[RESERVED] == 1 && NonZero(freq) == 34
            && TreeSizes(HuffmanTree(freq))[RESERVED] == 33
  {
    var fib := FirstNumbers();
    FirstNumbersGrow(fib);
    FirstNumbersAdd(fib);
    FirstNumbersBegin(fib, 1, 2);
    LastNumber(fib, 35);
    SharpFor(fib);
  }

  lemma SharpFor(fib: Numbers)
    requires Fibonacci(fib)
    ensures var freq := FibFreq(fib, 1);
            && Sum(freq) == fib[35] && freq[RESERVED] == 1 && NonZero(freq) == 34
            && TreeSizes(HuffmanTree(freq))[RESERVED] == 33
  {
    var freq := FibFreq(fib, 1);
    ChainMerges(fib, InitialState(freq), 1);
    ReservedIsDeepest(freq);
  }
}

/** Optimised Huffman tables: from code sizes to a canonical code of at most 16 bits
    (Figures K.2 to K.4 of ITU-T T.81). */
module HuffmanOptimize {
  import opened Bits
  import opened HuffmanCode
  import opened HuffmanMerge
  import opened Sequences

  // lengths[k] counts the codes of k + 1 bits, as in HuffmanCode, but for sizes up to 32

  lemma {:induction false} CountUpdate(lengths: seq<nat>, j: nat, x: nat, n: nat)
    requires j < n <= |lengths|
    ensures Count(lengths[j := x], n) == Count(lengths, n) + x - lengths[j]
  {
    if j < n - 1 {
      CountUpdate(lengths, j, x, n - 1);
    } else {
      CountPrefix(lengths, lengths[j := x], j);
    }
  }

  lemma {:induction false} CountPrefix(a: seq<nat>, b: seq<nat>, n: nat)
    requires n <= |a| && n <= |b| && a[..n] == b[..n]
    ensures Count(a, n) == Count(b, n) && Taken(a, n) == Taken(b, n)
  {
    if n > 0 {
      assert a[..n - 1] == a[..n][..n - 1] == b[..n][..n - 1] == b[..n - 1];
      assert a[n - 1] == a[..n][n - 1] == b[..n][n - 1] == b[n - 1];
      CountPrefix(a, b, n - 1);
    }
  }

  /** One more code of j + 1 bits takes 2^(n-1-j) more n-bit strings. */
  lemma {:induction false} TakenUpdate(lengths: seq<nat>, j: nat, x: nat, n: nat)
    requires j < n <= |lengths|
    ensures Taken(lengths[j := x], n) == Taken(lengths, n) + (x - lengths[j]) * Pow2(n - 1 - j)
  {
    if j < n - 1 {
      TakenUpdate(lengths, j, x, n - 1);
      Doubled(x - lengths[j], Pow2(n - 2 - j));
    } else {
      CountPrefix(lengths, lengths[j := x], j);
    }
  }

  lemma Doubled(d: int, p: nat)
    ensures d * (2 * p) == 2 * (d * p)
  {
  }

  lemma {:induction false} CountZeros(lengths: seq<nat>, m: nat, n: nat)
    requires m <= n <= |lengths| && forall k :: m <= k < n ==> lengths[k] == 0
    ensures Count(lengths, n) == Count(lengths, m)
  {
    if m < n {
      CountZeros(lengths, m, n - 1);
    }
  }

  lemma {:induction false} CountAtLeast(lengths: seq<nat>, j: nat, n: nat)
    requires j < n <= |lengths|
    ensures lengths[j] <= Count(lengths, n)
  {
    CountUpdate(lengths, j, 0, n);
  }

  // ---------------------------------------------------------------- Figure K.3, one rewrite

  /** Two codes of i bits and one of j bits become one of i - 1 bits and two of j + 1 bits. */
  ghost function Rewrite(l: seq<nat>, i: nat, j: nat): (r: seq<nat>)
    requires 1 <= j <= i - 2 && i <= |l| && l[i - 1] >= 2 && l[j - 1] >= 1
    ensures |r| == |l|
  {
    var a := l[i - 1 := l[i - 1] - 2];
    var b := a[i - 2 := a[i - 2] + 1];
    var c := b[j := b[j] + 2];
    c[j - 1 := c[j - 1] - 1]
  }

  /** A rewrite keeps the number of codes. */
  lemma RewriteKeepsCount(l: seq<nat>, i: nat, j: nat)
    requires 1 <= j <= i - 2 && i <= |l| && l[i - 1] >= 2 && l[j - 1] >= 1
    ensures Count(Rewrite(l, i, j), i) == Count(l, i)
  {
    var a := l[i - 1 := l[i - 1] - 2];
    var b := a[i - 2 := a[i - 2] + 1];
    var c := b[j := b[j] + 2];
    CountUpdate(l, i - 1, l[i - 1] - 2, i);
    CountUpdate(a, i - 2, a[i - 2] + 1, i);
    CountUpdate(b, j, b[j] + 2, i);
    CountUpdate(c, j - 1, c[j - 1] - 1, i);
  }

  /** A rewrite keeps the Kraft sum. */
  lemma RewriteKeepsTaken(l: seq<nat>, i: nat, j: nat)
    requires 1 <= j <= i - 2 && i <= |l| && l[i - 1] >= 2 && l[j - 1] >= 1
    ensures Taken(Rewrite(l, i, j), i) == Taken(l, i)
  {
    var a := l[i - 1 := l[i - 1] - 2];
    var b := a[i - 2 := a[i - 2] + 1];
    var c := b[j := b[j] + 2];
    var p := Pow2(i - 1 - j);
    TakenUpdate(l, i - 1, l[i - 1] - 2, i);
    TakenUpdate(a, i - 2, a[i - 2] + 1, i);
    TakenUpdate(b, j, b[j] + 2, i);
    TakenUpdate(c, j - 1, c[j - 1] - 1, i);
    assert Pow2(i - j) == 2 * p && Pow2(1) == 2 && Pow2(0) == 1;
  }

  /** A full code has an even number of longest codes. */
  lemma LongestEven(l: seq<nat>, i: nat)
    requires 1 <= i <= |l| && Taken(l, i) == Pow2(i)
    ensures l[i - 1] % 2 == 0
  {
  }

  /** A full code of more than 16 bits and few codes has a code at least two bits shorter. */
  lemma ShorterExists(l: seq<nat>, i: nat)
    requires 17 <= i <= |l| && Taken(l, i) == Pow2(i) && Count(l, i) <= SYMBOLS
    ensures exists k :: 0 <= k < i - 2 && l[k] > 0
  {
    Pow2Values();
    Pow2Mono(16, i);
    CountAtLeast(l, i - 2, i);
    CountAtLeast(l, i - 1, i);
    if forall k :: 0 <= k < i - 2 ==> l[k] == 0 {
      TakenOfTopTwo(l, i);
      assert false;
    }
  }

  lemma TakenOfTopTwo(l: seq<nat>, i: nat)
    requires 2 <= i <= |l| && forall k :: 0 <= k < i - 2 ==> l[k] == 0
    ensures Taken(l, i) == 2 * l[i - 2] + l[i - 1]
  {
    CountZeros(l, 0, i - 2);
    TakenOverGap(l, 0, i - 2);
  }

  // ---------------------------------------------------------------- what limiting may cost

  /** The lengths of all codes of up to n bits, added up. */
  function LengthSum(l: seq<nat>, n: nat): nat
    requires n <= |l|
  {
    if n == 0 then 0 else LengthSum(l, n - 1) + l[n - 1] * n
  }

  lemma {:induction false} LengthSumPrefix(a: seq<nat>, b: seq<nat>, n: nat)
    requires n <= |a| && n <= |b| && a[..n] == b[..n]
    ensures LengthSum(a, n) == LengthSum(b, n)
  {
    if n > 0 {
      assert a[..n - 1] == a[..n][..n - 1] == b[..n][..n - 1] == b[..n - 1];
      assert a[n - 1] == a[..n][n - 1] == b[..n][n - 1] == b[n - 1];
      LengthSumPrefix(a, b, n - 1);
    }
  }

  lemma {:induction false} LengthSumUpdate(l: seq<nat>, j: nat, x: nat, n: nat)
    requires j < n <= |l|
    ensures LengthSum(l[j := x], n) == LengthSum(l, n) + (x - l[j]) * (j + 1)
  {
    if j < n - 1 {
      LengthSumUpdate(l, j, x, n - 1);
    } else {
      LengthSumPrefix(l, l[j := x], j);
    }
  }

  lemma LengthSumBy(l: seq<nat>, j: nat, d: int, n: nat)
    requires j < n <= |l| && l[j] + d >= 0
    ensures LengthSum(l[j := l[j] + d], n) == LengthSum(l, n) + d * (j + 1)
  {
    LengthSumUpdate(l, j, l[j] + d, n);
  }

  /** A rewrite makes the codes shorter, taken together. */
  lemma RewriteShortens(l: seq<nat>, i: nat, j: nat)
    requires 1 <= j <= i - 2 && i <= |l| && l[i - 1] >= 2 && l[j - 1] >= 1
    ensures LengthSum(Rewrite(l, i, j), |l|) < LengthSum(l, |l|)
  {
    var a := l[i - 1 := l[i - 1] - 2];
    var b := a[i - 2 := a[i - 2] + 1];
    var c := b[j := b[j] + 2];
    LengthSumBy(l, i - 1, -2, |l|);
    LengthSumBy(a, i - 2, 1, |l|);
    LengthSumBy(b, j, 2, |l|);
    LengthSumBy(c, j - 1, -1, |l|);
  }

  /** The codes of up to k bits, two bits below those that are taken away, do not take more of the code space. */
  lemma RewriteTakesNoMore(l: seq<nat>, i: nat, j: nat, k: nat)
    requires 1 <= j <= i - 2 && i <= |l| && l[i - 1] >= 2 && l[j - 1] >= 1 && k <= i - 2
    ensures Taken(Rewrite(l, i, j), k) <= Taken(l, k)
  {
    var a := l[i - 1 := l[i - 1] - 2];
    var b := a[i - 2 := a[i - 2] + 1];
    var c := b[j := b[j] + 2];
    CountPrefix(l, b, k);
    if k < j {
      CountPrefix(b, Rewrite(l, i, j), k);
    } else {
      if k == j {
        CountPrefix(b, c, k);
      } else {
        TakenUpdate(b, j, b[j] + 2, k);
        assert Pow2(k - j) == 2 * Pow2(k - 1 - j);
      }
      TakenUpdate(c, j - 1, c[j - 1] - 1, k);
      MinusOnce(Pow2(k - j));
    }
  }

  /** The lengths after some rewrites: no greater in all, and no more of the code space in codes of up to 15 bits. */
  ghost predicate NoLonger(before: seq<nat>, after: seq<nat>)
  {
    && |before| == |after| == 32 && LengthSum(after, 32) <= LengthSum(before, 32)
    && forall k :: 0 <= k <= 15 ==> Taken(after, k) <= Taken(before, k)
  }

  lemma RewriteNoLonger(before: seq<nat>, l: seq<nat>, i: nat, j: nat)
    requires NoLonger(before, l) && 17 <= i <= 32 && 1 <= j <= i - 2 && l[i - 1] >= 2 && l[j - 1] >= 1
    ensures NoLonger(before, Rewrite(l, i, j))
  {
    RewriteShortens(l, i, j);
    forall k | 0 <= k <= 15 ensures Taken(Rewrite(l, i, j), k) <= Taken(before, k) {
      RewriteTakesNoMore(l, i, j, k);
    }
  }

  /** j is the greatest length in use that is at least two bits shorter than i. */
  ghost predicate IsShorter(l: seq<nat>, i: nat, j: nat)
  {
    1 <= j <= i - 2 < |l| && l[j - 1] > 0 && forall k :: j <= k < i - 2 ==> l[k] == 0
  }

  /** Codes of at most i bits that fill the code space, n of them. */
  ghost predicate FullCode(bits: seq<nat>, i: nat, n: nat)
  {
    && |bits| == 33 && i <= 32
    && (forall k :: i < k <= 32 ==> bits[k] == 0)
    && bits[0] == 0
    && Taken(bits[1..], i) == Pow2(i)
    && Count(bits[1..], i) == n
  }

  /** The inner loop of Figure K.3: the next shorter length in use. */
  method FindShorter(bits: array<nat>, i: nat, ghost n: nat) returns (j: nat)
    requires bits.Length == 33 && 17 <= i <= 32 && FullCode(bits[..], i, n) && n <= SYMBOLS
    ensures IsShorter(bits[1..], i, j)
  {
    ghost var l := bits[1..];
    ShorterExists(l, i);
    j := i - 2;
    while bits[j] == 0
      invariant 1 <= j <= i - 2
      invariant exists k :: 0 <= k < j && l[k] > 0
      invariant forall k :: j <= k < i - 2 ==> l[k] == 0
      decreases j
    {
      assert l[j - 1] == 0;
      j := j - 1;
    }
    assert l[j - 1] == bits[j];
  }

  /** One rewrite of Figure K.3, in place; no counter underflows or leaves a byte. */
  method RewriteInPlace(bits: array<nat>, i: nat, ghost n: nat) returns (ghost j: nat)
    requires bits.Length == 33 && 17 <= i <= 32 && FullCode(bits[..], i, n) && n <= 255 && bits[i] > 0
    modifies bits
    ensures IsShorter(old(bits[1..]), i, j) && old(bits[i]) >= 2
    ensures bits[1..] == Rewrite(old(bits[1..]), i, j) && bits[0] == 0
    ensures FullCode(bits[..], i, n) && bits[i] == old(bits[i]) - 2
  {
    var short := FindShorter(bits, i, n);
    j := short;
    ghost var l := bits[1..];
    LongestEven(l, i);
    assert l[i - 1] == bits[i] && l[j - 1] == bits[j];
    RewriteBytes(bits[..], i, j, n);
    var fewer: byte := bits[i] - 2;
    bits[i] := fewer;
    var more: byte := bits[i - 1] + 1;
    bits[i - 1] := more;
    var two: byte := bits[short + 1] + 2;
    bits[short + 1] := two;
    var one: byte := bits[short] - 1;
    bits[short] := one;
    assert bits[..][1..] == bits[1..] == Rewrite(l, i, j);
    RewriteFull(old(bits[..]), bits[..], i, j, n);
  }

  /** What a rewrite stores fits a byte. */
  lemma RewriteBytes(bits: seq<nat>, i: nat, j: nat, n: nat)
    requires FullCode(bits, i, n) && 1 <= j <= i - 2 && bits[i] >= 2 && bits[j] >= 1 && n <= 255
    ensures bits[i] <= 255 && bits[j] <= 255
    ensures if j + 1 == i - 1 then bits[i - 1] + 3 <= 255 else bits[i - 1] + 1 <= 255 && bits[j + 1] + 2 <= 255
  {
    var once := bits[i := bits[i] - 2][i - 1 := bits[i - 1] + 1];
    var after := once[j + 1 := once[j + 1] + 2][j := once[j] - 1];
    assert after[1..] == Rewrite(bits[1..], i, j);
    RewriteFull(bits, after, i, j, n);
    FullCodeBytes(bits, i, n);
    FullCodeBytes(after, i, n);
    assert after[j + 1] == once[j + 1] + 2 && after[i - 1] >= once[i - 1] == bits[i - 1] + 1;
  }

  lemma RewriteFull(bits: seq<nat>, bits': seq<nat>, i: nat, j: nat, n: nat)
    requires FullCode(bits, i, n) && 1 <= j <= i - 2 && bits[i] >= 2 && bits[j] >= 1
    requires |bits'| == 33 && bits'[0] == 0 && bits'[1..] == Rewrite(bits[1..], i, j)
    ensures FullCode(bits', i, n) && bits'[i] == bits[i] - 2
  {
    var l := bits[1..];
    RewriteKeepsCount(l, i, j);
    RewriteKeepsTaken(l, i, j);
    forall k | i <= k <= 32 ensures bits'[k] == if k == i then bits[i] - 2 else 0 {
      assert bits'[k] == bits'[1..][k - 1];
      assert bits[k] == l[k - 1];
    }
  }

  lemma FullCodeBytes(bits: seq<nat>, i: nat, n: nat)
    requires FullCode(bits, i, n) && n <= 255
    ensures forall k :: 0 <= k <= 32 ==> bits[k] <= 255
  {
    forall k | 1 <= k <= i ensures bits[k] <= 255 {
      CountAtLeast(bits[1..], k - 1, i);
    }
  }

  /** Going down to the next length once the longest one is out of use. */
  lemma FullCodeDown(bits: seq<nat>, i: nat, n: nat)
    requires i >= 1 && FullCode(bits, i, n) && bits[i] == 0
    ensures FullCode(bits, i - 1, n)
  {
    assert bits[1..][i - 1] == bits[i];
  }

  /** No code is longer than 16 bits. */
  ghost predicate Limited(bits: seq<nat>)
  {
    forall k :: 16 < k < |bits| ==> bits[k] == 0
  }

  /** Figure K.3: at most 16 bits, the same number of codes, still a full code. */
  method LimitSizes(bits: array<nat>, ghost n: nat)
    requires bits.Length == 33 && FullCode(bits[..], 32, n) && n <= 255
    modifies bits
    ensures FullCode(bits[..], 16, n)
    ensures NoLonger(old(bits[1..]), bits[1..])
    ensures old(Limited(bits[..])) ==> bits[..] == old(bits[..])
  {
    var i := 32;
    while i > 16
      invariant 16 <= i <= 32 && FullCode(bits[..], i, n) && NoLonger(old(bits[1..]), bits[1..])
      invariant old(Limited(bits[..])) ==> bits[..] == old(bits[..])
    {
      while bits[i] > 0
        invariant FullCode(bits[..], i, n) && NoLonger(old(bits[1..]), bits[1..])
        invariant old(Limited(bits[..])) ==> bits[..] == old(bits[..])
        decreases bits[i]
      {
        ghost var l := bits[1..];
        assert l[i - 1] == bits[i];
        ghost var j := RewriteInPlace(bits, i, n);
        RewriteNoLonger(old(bits[1..]), l, i, j);
      }
      FullCodeDown(bits[..], i, n);
      i := i - 1;
    }
  }

  /** Takes one code of the longest length away: it is the one made of ones only. */
  method DropLongest(bits: array<nat>, ghost n: nat) returns (longest: nat)
    requires bits.Length == 33 && FullCode(bits[..], 16, n) && 2 <= n <= 255
    modifies bits
    ensures 1 <= longest <= 16 && old(bits[longest]) > 0
    ensures forall k :: longest < k <= 32 ==> bits[k] == 0
    ensures bits[..] == old(bits[..])[longest := old(bits[longest]) - 1]
    ensures Count(bits[1..17], 16) == n - 1
    ensures Taken(bits[1..17], 16) == 0x1_0000 - Pow2(16 - longest)
  {
    longest := 16;
    while bits[longest] == 0
      invariant 1 <= longest <= 16 && FullCode(bits[..], longest, n)
      invariant bits[..] == old(bits[..])
      decreases longest
    {
      FullCodeNotEmpty(bits[..], longest, n);
      FullCodeDown(bits[..], longest, n);
      longest := longest - 1;
    }
    DropOne(bits[..], longest, n);
    bits[longest] := bits[longest] - 1;
    assert bits[1..17] == bits[..][1..17];
  }

  lemma FullCodeNotEmpty(bits: seq<nat>, i: nat, n: nat)
    requires 1 <= i && FullCode(bits, i, n) && bits[i] == 0 && n >= 1
    ensures i > 1
  {
    assert bits[1..][0] == bits[1];
    assert Count(bits[1..], 1) == Count(bits[1..], 0) + bits[1..][0];
  }

  lemma DropOne(bits: seq<nat>, longest: nat, n: nat)
    requires FullCode(bits, 16, n) && 1 <= longest <= 16 && bits[longest] > 0
    ensures var r := bits[longest := bits[longest] - 1][1..17];
            Count(r, 16) == n - 1 && Taken(r, 16) == 0x1_0000 - Pow2(16 - longest)
  {
    var l, r := bits[1..], bits[longest := bits[longest] - 1][1..17];
    var short := l[..16];
    assert r == short[longest - 1 := short[longest - 1] - 1];
    CountPrefix(l, short, 16);
    DropOneShort(short, longest);
    Pow2Values();
  }

  lemma DropOneShort(l: seq<nat>, s: nat)
    requires IsLengths(l) && 1 <= s <= 16 && l[s - 1] > 0
    ensures Count(l[s - 1 := l[s - 1] - 1], 16) == Count(l, 16) - 1
    ensures Taken(l[s - 1 := l[s - 1] - 1], 16) == Taken(l, 16) - Pow2(16 - s)
  {
    DropOneOf(l, s, 16);
  }

  lemma DropOneOf(l: seq<nat>, s: nat, n: nat)
    requires 1 <= s <= n <= |l| && l[s - 1] > 0
    ensures Count(l[s - 1 := l[s - 1] - 1], n) == Count(l, n) - 1
    ensures Taken(l[s - 1 := l[s - 1] - 1], n) == Taken(l, n) - Pow2(n - s)
  {
    CountUpdate(l, s - 1, l[s - 1] - 1, n);
    TakenUpdate(l, s - 1, l[s - 1] - 1, n);
    MinusOnce(Pow2(n - s));
  }

  lemma MinusOnce(p: nat)
    ensures (0 - 1) * p == -(p as int)
  {
  }

  // ---------------------------------------------------------------- Figure K.2

  /** How many entries equal c. */
  function CountOf(sizes: seq<nat>, c: nat): (n: nat)
    ensures n <= |sizes|
  {
    if sizes == [] then 0
    else CountOf(sizes[..|sizes| - 1], c) + (if sizes[|sizes| - 1] == c then 1 else 0)
  }

  ghost function CountsOf(sizes: seq<nat>): (l: seq<nat>)
    ensures |l| == 32
  {
    seq(32, k requires 0 <= k < 32 => CountOf(sizes, k + 1))
  }

  /** The share of the 32-bit strings that starts with a code of c bits; none without a code. */
  function Share(c: nat): nat
    requires c <= 32
  {
    if c == 0 then 0 else Pow2(32 - c)
  }

  ghost function Shares(sizes: seq<nat>): (s: seq<nat>)
    requires forall x :: 0 <= x < |sizes| ==> sizes[x] <= 32
    ensures |s| == |sizes|
  {
    seq(|sizes|, x requires 0 <= x < |sizes| => Share(sizes[x]))
  }

  lemma {:induction false} CountsSum(sizes: seq<nat>)
    requires forall x :: 0 <= x < |sizes| ==> sizes[x] <= 32
    ensures Taken(CountsOf(sizes), 32) == Sum(Shares(sizes))
    ensures Count(CountsOf(sizes), 32) == NonZero(sizes)
  {
    if sizes == [] {
      CountZeros(CountsOf(sizes), 0, 32);
      TakenOverGap(CountsOf(sizes), 0, 32);
    } else {
      var n := |sizes| - 1;
      CountsSum(sizes[..n]);
      assert Shares(sizes)[..n] == Shares(sizes[..n]);
      CountsStep(sizes);
    }
  }

  lemma CountsStep(sizes: seq<nat>)
    requires sizes != [] && forall x :: 0 <= x < |sizes| ==> sizes[x] <= 32
    ensures var l, c := CountsOf(sizes[..|sizes| - 1]), sizes[|sizes| - 1];
            && Taken(CountsOf(sizes), 32) == Taken(l, 32) + Share(c)
            && Count(CountsOf(sizes), 32) == Count(l, 32) + (if c > 0 then 1 else 0)
  {
    var l, c := CountsOf(sizes[..|sizes| - 1]), sizes[|sizes| - 1];
    if c == 0 {
      assert CountsOf(sizes) == l;
    } else {
      assert CountsOf(sizes) == l[c - 1 := l[c - 1] + 1];
      OneMore(l, c - 1, 32);
    }
  }

  lemma OneMore(l: seq<nat>, j: nat, n: nat)
    requires j < n <= |l|
    ensures Count(l[j := l[j] + 1], n) == Count(l, n) + 1
    ensures Taken(l[j := l[j] + 1], n) == Taken(l, n) + Pow2(n - 1 - j)
  {
    CountUpdate(l, j, l[j] + 1, n);
    TakenUpdate(l, j, l[j] + 1, n);
  }

  /** Figure K.2. */
  method CountSizes(codesize: array<nat>) returns (bits: array<nat>)
    requires forall x :: 0 <= x < codesize.Length ==> codesize[x] <= 32
    ensures fresh(bits) && bits.Length == 33 && bits[0] == 0
    ensures bits[1..] == CountsOf(codesize[..])
  {
    bits := new nat[33](_ => 0);
    for x := 0 to codesize.Length
      invariant bits[0] == 0
      invariant forall k :: 1 <= k < 33 ==> bits[k] == CountOf(codesize[..x], k)
    {
      assert codesize[..x + 1][..x] == codesize[..x];
      var size := codesize[x];
      if size > 0 {
        bits[size] := bits[size] + 1;
      }
    }
    assert codesize[..codesize.Length] == codesize[..];
  }

  // ---------------------------------------------------------------- sizes that come from a tree

  ghost function Along(g: seq<nat>, leaves: seq<nat>): (s: seq<nat>)
    requires forall k :: 0 <= k < |leaves| ==> leaves[k] < |g|
    ensures |s| == |leaves|
  {
    seq(|leaves|, k requires 0 <= k < |leaves| => g[leaves[k]])
  }

  /** A sum over all symbols is the sum over the leaves of a tree when only those contribute. */
  lemma {:induction false} SumOverLeaves(g: seq<nat>, leaves: seq<nat>)
    requires Distinct(leaves) && forall k :: 0 <= k < |leaves| ==> leaves[k] < |g|
    requires forall x :: 0 <= x < |g| && x !in leaves ==> g[x] == 0
    ensures Sum(g) == Sum(Along(g, leaves))
    decreases |leaves|
  {
    if leaves == [] {
      AllZero(g);
    } else {
      var n := |leaves| - 1;
      var front, x := leaves[..n], leaves[n];
      assert leaves == front + [x];
      SumUpdate(g, x, 0);
      SumOverLeaves(g[x := 0], front);
      assert Along(g, leaves)[..n] == Along(g[x := 0], front);
    }
  }

  ghost predicate AtMost32(depths: seq<nat>)
  {
    forall k :: 0 <= k < |depths| ==> depths[k] <= 32
  }

  ghost function SharesOf(depths: seq<nat>): (s: seq<nat>)
    requires AtMost32(depths)
    ensures |s| == |depths|
  {
    seq(|depths|, k requires 0 <= k < |depths| => Pow2(32 - depths[k]))
  }

  lemma SharesConcat(a: seq<nat>, b: seq<nat>)
    requires AtMost32(a) && AtMost32(b)
    ensures AtMost32(a + b) && SharesOf(a + b) == SharesOf(a) + SharesOf(b)
  {
  }

  ghost function TreeShares(t: Tree, d: nat): (s: seq<nat>)
    requires d + Height(t) <= 32
    ensures |s| == |Leaves(t)|
  {
    DepthsBounded(t, d);
    SharesOf(Depths(t, d))
  }

  lemma {:induction false} SumConcat(a: seq<nat>, b: seq<nat>)
    ensures Sum(a + b) == Sum(a) + Sum(b)
  {
    if b == [] {
      assert a + b == a;
    } else {
      assert (a + b)[..|a + b| - 1] == a + b[..|b| - 1];
      SumConcat(a, b[..|b| - 1]);
    }
  }

  lemma TreeSharesNode(l: Tree, r: Tree, d: nat)
    requires d + Height(Node(l, r)) <= 32
    ensures d + 1 + Height(l) <= 32 && d + 1 + Height(r) <= 32
    ensures TreeShares(Node(l, r), d) == TreeShares(l, d + 1) + TreeShares(r, d + 1)
  {
    DepthsBounded(l, d + 1);
    DepthsBounded(r, d + 1);
    SharesConcat(Depths(l, d + 1), Depths(r, d + 1));
  }

  /** The leaves of a tree share the strings below its root completely. */
  lemma {:induction false} TreeSharesSum(t: Tree, d: nat)
    requires d + Height(t) <= 32
    ensures Sum(TreeShares(t, d)) == Pow2(32 - d)
  {
    match t
    case Leaf(_) =>
      assert TreeShares(t, d) == [Pow2(32 - d)];
    case Node(l, r) =>
      TreeSharesSum(l, d + 1);
      TreeSharesSum(r, d + 1);
      TreeSharesNode(l, r, d);
      SumConcat(TreeShares(l, d + 1), TreeShares(r, d + 1));
  }

  /** The sizes are the depths of a tree of at least two symbols and at most 32 levels. */
  ghost predicate FromTree(sizes: seq<nat>, t: Tree)
  {
    && |sizes| == SYMBOLS && t.Node? && Height(t) <= 32
    && Sized(sizes, t, 0) && Distinct(Leaves(t))
    && forall x :: 0 <= x < SYMBOLS && x !in Leaves(t) ==> sizes[x] == 0
  }

  lemma FromTreeBounds(sizes: seq<nat>, t: Tree)
    requires FromTree(sizes, t)
    ensures forall x :: 0 <= x < SYMBOLS ==> sizes[x] <= 32 && (sizes[x] > 0 <==> x in Leaves(t))
  {
    DepthsBounded(t, 0);
    forall x | 0 <= x < SYMBOLS && x in Leaves(t) ensures 0 < sizes[x] <= 32 {
      var k :| 0 <= k < |Leaves(t)| && Leaves(t)[k] == x;
    }
  }

  /** Depths of a tree fill the code space: their Kraft sum is one. */
  lemma FromTreeShares(sizes: seq<nat>, t: Tree)
    requires FromTree(sizes, t)
    ensures forall x :: 0 <= x < SYMBOLS ==> sizes[x] <= 32
    ensures Sum(Shares(sizes)) == Pow2(32)
  {
    FromTreeBounds(sizes, t);
    DepthsBounded(t, 0);
    var g, leaves := Shares(sizes), Leaves(t);
    SumOverLeaves(g, leaves);
    assert Along(g, leaves) == TreeShares(t, 0);
    TreeSharesSum(t, 0);
  }

  /** The code sizes of a tree, counted, are a full code with one code a leaf. */
  lemma CountedTree(sizes: seq<nat>, t: Tree, bits: seq<nat>)
    requires FromTree(sizes, t) && |bits| == 33 && bits[0] == 0 && bits[1..] == CountsOf(sizes)
    ensures FullCode(bits, 32, NonZero(sizes))
  {
    FromTreeShares(sizes, t);
    CountsSum(sizes);
  }

  // ---------------------------------------------------------------- Figure K.4

  /** Symbols below 256 with a code, by increasing size and then by value, those before (size, value). */
  ghost predicate SortedUpTo(sizes: seq<nat>, values: seq<byte>, size: nat, value: nat)
    requires |sizes| == SYMBOLS
  {
    && (forall a :: 0 <= a < |values| ==> sizes[values[a]] > 0)
    && (forall a, b :: 0 <= a < b < |values| ==> Before(sizes, values[a], values[b]))
    && (forall v :: 0 <= v < 256 && sizes[v] > 0 ==>
          (v in values <==> sizes[v] < size || (sizes[v] == size && v < value)))
  }

  ghost predicate Before(sizes: seq<nat>, u: nat, v: nat)
  {
    u < |sizes| && v < |sizes| && (sizes[u] < sizes[v] || (sizes[u] == sizes[v] && u < v))
  }

  /** The values of a table: exactly the symbols with a code, by increasing size, then by value. */
  ghost predicate SortedBySize(sizes: seq<nat>, values: seq<byte>)
    requires |sizes| == SYMBOLS
  {
    && (forall a, b :: 0 <= a < b < |values| ==> Before(sizes, values[a], values[b]))
    && (forall v :: v in values <==> 0 <= v < 256 && sizes[v] > 0)
  }

  lemma PigeonHole(values: seq<nat>, n: nat)
    requires Distinct(values) && forall a :: 0 <= a < |values| ==> values[a] < n
    ensures |values| <= n
  {
    var g := seq(n, x requires 0 <= x < n => if x in values then 1 else 0);
    SumOverLeaves(g, values);
    SumAllOnes(Along(g, values));
    SumAtMost(g);
  }

  lemma {:induction false} SumAllOnes(s: seq<nat>)
    requires forall k :: 0 <= k < |s| ==> s[k] == 1
    ensures Sum(s) == |s|
  {
    if s != [] {
      SumAllOnes(s[..|s| - 1]);
    }
  }

  lemma {:induction false} SumAtMost(s: seq<nat>)
    requires forall k :: 0 <= k < |s| ==> s[k] <= 1
    ensures Sum(s) <= |s|
  {
    if s != [] {
      SumAtMost(s[..|s| - 1]);
    }
  }

  /** Figure K.4. */
  method SortBySize(codesize: array<nat>) returns (values: seq<byte>)
    requires codesize.Length == SYMBOLS && forall x :: 0 <= x < SYMBOLS ==> codesize[x] <= 32
    ensures SortedBySize(codesize[..], values)
  {
    var huffval := new byte[256](_ => 0);
    ghost var sizes := codesize[..];
    var k := 0;
    for i := 1 to 33
      invariant 0 <= k <= 256 && codesize[..] == sizes
      invariant SortedUpTo(sizes, huffval[..k], i, 0)
    {
      for j := 0 to 256
        invariant 0 <= k <= 256 && codesize[..] == sizes
        invariant SortedUpTo(sizes, huffval[..k], i, j)
      {
        if codesize[j] == i {
          PushNext(sizes, huffval[..k], i, j);
          ghost var before := huffval[..k];
          huffval[k] := j;
          k := k + 1;
          assert huffval[..k] == before + [j];
        }
      }
      NextSizeUp(sizes, huffval[..k], i);
    }
    values := huffval[..k];
  }

  lemma PushNext(sizes: seq<nat>, values: seq<byte>, size: nat, value: byte)
    requires |sizes| == SYMBOLS && size > 0
    requires SortedUpTo(sizes, values, size, value) && sizes[value] == size
    ensures SortedUpTo(sizes, values + [value], size, value + 1)
    ensures |values| < 256
  {
    forall a | 0 <= a < |values| ensures Before(sizes, values[a], value) {
      assert values[a] in values;
    }
    PigeonHole(values + [value], 256);
  }

  lemma NextSizeUp(sizes: seq<nat>, values: seq<byte>, size: nat)
    requires |sizes| == SYMBOLS && SortedUpTo(sizes, values, size, 256)
    ensures SortedUpTo(sizes, values, size + 1, 0)
  {
  }

  // ---------------------------------------------------------------- the optimised table

  ghost function DepthOf(t: Tree, x: nat): nat
  {
    match t
    case Leaf(_) => 0
    case Node(l, r) => 1 + (if x in Leaves(l) then DepthOf(l, x) else DepthOf(r, x))
  }

  /** The depth of every symbol of the tree, and 0 for the others. */
  ghost function TreeSizes(t: Tree): (s: seq<nat>)
    ensures |s| == SYMBOLS
  {
    seq(SYMBOLS, (x: nat) => if x in Leaves(t) then DepthOf(t, x) else 0)
  }

  lemma {:induction false} DepthsAreDepthOf(t: Tree, d: nat)
    requires Distinct(Leaves(t))
    ensures forall k :: 0 <= k < |Leaves(t)| ==> Depths(t, d)[k] == d + DepthOf(t, Leaves(t)[k])
  {
    match t
    case Leaf(_) =>
    case Node(l, r) =>
      var a, b := Leaves(l), Leaves(r);
      DistinctParts(a, b);
      DepthsAreDepthOf(l, d + 1);
      DepthsAreDepthOf(r, d + 1);
  }

  lemma FromTreeSizes(sizes: seq<nat>, t: Tree)
    requires FromTree(sizes, t)
    ensures sizes == TreeSizes(t)
  {
    DepthsAreDepthOf(t, 0);
    forall x | 0 <= x < SYMBOLS ensures sizes[x] == TreeSizes(t)[x] {
      if x in Leaves(t) {
        var k :| 0 <= k < |Leaves(t)| && Leaves(t)[k] == x;
      }
    }
  }

  /** What the two-pass scan hands over: the reserved symbol has a frequency and so has some other,
      at most 255 in all, and neither the sum nor a code size leaves its type. */
  ghost predicate Optimizable(freq: seq<nat>)
  {
    && |freq| == SYMBOLS
    && freq[256] > 0 && (exists v :: 0 <= v < 256 && freq[v] > 0)
    && NonZero(freq) <= 255
    && Sum(freq) <= 0xFFFF_FFFF
    && Height(HuffmanTree(freq)) <= 32
  }

  lemma OptimizableTree(freq: seq<nat>, sizes: seq<nat>)
    requires Optimizable(freq) && |sizes| == SYMBOLS && Sized(sizes, HuffmanTree(freq), 0)
    requires forall x :: 0 <= x < SYMBOLS && freq[x] == 0 ==> sizes[x] == 0
    ensures FromTree(sizes, HuffmanTree(freq))
    ensures forall x :: 0 <= x < SYMBOLS ==> sizes[x] <= 32 && (sizes[x] > 0 <==> freq[x] > 0)
    ensures 2 <= NonZero(sizes) == NonZero(freq)
  {
    var v :| 0 <= v < 256 && freq[v] > 0;
    NonZeroUpdate(freq, 256, 0);
    NonZeroUpdate(freq[256 := 0], v, 0);
    HuffmanTreeLeaves(freq);
    FromTreeBounds(sizes, HuffmanTree(freq));
    NonZeroSame(sizes, freq);
  }

  lemma {:induction false} NonZeroSame(a: seq<nat>, b: seq<nat>)
    requires |a| == |b| && forall x :: 0 <= x < |a| ==> (a[x] > 0 <==> b[x] > 0)
    ensures NonZero(a) == NonZero(b)
  {
    if a != [] {
      NonZeroSame(a[..|a| - 1], b[..|b| - 1]);
    }
  }

  /** The values are as many as the symbols below 256 with a code. */
  lemma ValuesCount(sizes: seq<nat>, values: seq<byte>)
    requires |sizes| == SYMBOLS && SortedBySize(sizes, values) && sizes[256] > 0
    ensures Distinct(values) && |values| == NonZero(sizes) - 1
  {
    var ones := seq(256, x requires 0 <= x < 256 => if sizes[x] > 0 then 1 else 0);
    SumOverLeaves(ones, values);
    SumAllOnes(Along(ones, values));
    NonZeroSum(sizes[..256], ones);
    assert sizes[..|sizes| - 1] == sizes[..256];
  }

  lemma {:induction false} NonZeroSum(s: seq<nat>, ones: seq<nat>)
    requires |s| == |ones| && forall x :: 0 <= x < |s| ==> ones[x] == if s[x] > 0 then 1 else 0
    ensures NonZero(s) == Sum(ones)
  {
    if s != [] {
      NonZeroSum(s[..|s| - 1], ones[..|s| - 1]);
    }
  }

  /** The Kraft sum of the codes is 1 - 2^-longest: what is missing is one code of the longest length. */
  ghost predicate LacksOneCode(lengths: seq<nat>, longest: nat)
    requires IsLengths(lengths)
  {
    && 1 <= longest <= 16
    && Taken(lengths, 16) == 0x1_0000 - Pow2(16 - longest)
    && forall k :: longest <= k < 16 ==> lengths[k] == 0
  }

  /** Figures K.2 and K.3: how many codes of each length the table gets. */
  method FindLengths(codesize: array<nat>, ghost t: Tree) returns (length: Lengths, longest: nat)
    requires codesize.Length == SYMBOLS && FromTree(codesize[..], t) && 2 <= NonZero(codesize[..]) <= 255
    ensures IsLengths(length) && Count(length, 16) == NonZero(codesize[..]) - 1
    ensures LacksOneCode(length, longest)
    ensures Height(t) <= 16 ==> OneOfLongestDropped(codesize[..], length, longest)
  {
    FromTreeBounds(codesize[..], t);
    ghost var n := NonZero(codesize[..]);
    var bits := CountSizes(codesize);
    CountedTree(codesize[..], t, bits[..]);
    ghost var counted := bits[..];
    if Height(t) <= 16 {
      NoLongSizes(codesize[..], t, counted);
    }
    LimitSizes(bits, n);
    longest := DropLongest(bits, n);
    length := bits[1..17];
    if Height(t) <= 16 {
      DroppedFromCounts(codesize[..], counted, bits[..], length, longest);
    }
  }

  /** The lengths count the sizes, but for one code of the longest size in use. */
  ghost predicate OneOfLongestDropped(sizes: seq<nat>, length: seq<nat>, longest: nat)
  {
    && |length| == 16 && 1 <= longest <= 16
    && (forall k :: 0 <= k < 16 ==> length[k] == CountOf(sizes, k + 1) - (if k + 1 == longest then 1 else 0))
    && (forall k :: longest < k <= 32 ==> CountOf(sizes, k) == 0)
  }

  lemma NoLongSizes(sizes: seq<nat>, t: Tree, bits: seq<nat>)
    requires FromTree(sizes, t) && Height(t) <= 16 && |bits| == 33 && bits[1..] == CountsOf(sizes)
    ensures Limited(bits)
  {
    DepthsBounded(t, 0);
    forall x | 0 <= x < SYMBOLS ensures sizes[x] <= 16 {
      if x in Leaves(t) {
        var k :| 0 <= k < |Leaves(t)| && Leaves(t)[k] == x;
      }
    }
    forall k | 16 < k < |bits| ensures bits[k] == 0 {
      assert bits[k] == CountsOf(sizes)[k - 1];
      NoneOf(sizes, k);
    }
  }

  lemma {:induction false} NoneOf(sizes: seq<nat>, c: nat)
    ensures (forall x :: 0 <= x < |sizes| ==> sizes[x] != c) <==> CountOf(sizes, c) == 0
  {
    if sizes != [] {
      NoneOf(sizes[..|sizes| - 1], c);
    }
  }

  lemma DroppedFromCounts(sizes: seq<nat>, counted: seq<nat>, bits: seq<nat>, length: seq<nat>, longest: nat)
    requires |counted| == |bits| == 33 && counted[1..] == CountsOf(sizes) && 1 <= longest <= 16
    requires Limited(counted) && counted[longest] > 0 && bits == counted[longest := counted[longest] - 1]
    requires length == bits[1..17] && forall k :: longest < k <= 32 ==> bits[k] == 0
    ensures OneOfLongestDropped(sizes, length, longest)
  {
    forall k | 1 <= k <= 32 ensures counted[k] == CountOf(sizes, k) {
      assert counted[k] == counted[1..][k - 1];
    }
    forall k | 0 <= k < 16 ensures length[k] == CountOf(sizes, k + 1) - (if k + 1 == longest then 1 else 0) {
      assert length[k] == bits[k + 1];
    }
    forall k | longest < k <= 32 ensures CountOf(sizes, k) == 0 {
      assert bits[k] == counted[k];
    }
  }

  /** HuffmanTable::new_optimized. */
  method NewOptimized(frequencies: seq<nat>) returns (t: HuffmanTable, longest: nat)
    requires Optimizable(frequencies)
    ensures ValidTable(t)
    ensures forall v: byte :: v in t.values <==> frequencies[v] > 0
    ensures SortedBySize(TreeSizes(HuffmanTree(frequencies)), t.values)
    ensures LacksOneCode(t.length, longest)
    ensures Height(HuffmanTree(frequencies)) <= 16 ==>
              OneOfLongestDropped(TreeSizes(HuffmanTree(frequencies)), t.length, longest)
  {
    var freq := new nat[SYMBOLS](x requires 0 <= x < SYMBOLS => frequencies[x]);
    assert freq[..] == frequencies;
    var codesize := FindCodeSizes(freq);
    OptimizableTree(frequencies, codesize[..]);
    FromTreeSizes(codesize[..], HuffmanTree(frequencies));
    var length: Lengths;
    length, longest := FindLengths(codesize, HuffmanTree(frequencies));
    var values := SortBySize(codesize);
    ValuesCount(codesize[..], values);
    t := NewHuffmanTable(length, values);
  }
}

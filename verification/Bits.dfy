/** Machine words as natural numbers and as strings of bits, most significant bit first.
    Words wrap around explicitly: a shift to the left is a product modulo the size of the word, a shift
    to the right a quotient. Conjunction and disjunction are defined bit by bit, and the lemmas here say
    what they are on words whose bits do not overlap, and under masks.
    Products of variables are isolated in small lemmas over natural numbers. */
module Bits {

  type byte = n: int | 0 <= n < 256

  function Min(a: nat, b: nat): nat
  {
    if a < b then a else b
  }

  function Pow2(n: nat): (p: nat)
    ensures p >= 1
  {
    if n == 0 then 1 else 2 * Pow2(n - 1)
  }

  function Pow256(m: nat): (p: nat)
    ensures p >= 1
  {
    if m == 0 then 1 else 256 * Pow256(m - 1)
  }

  lemma {:induction false} Pow2Add(m: nat, n: nat)
    ensures Pow2(m + n) == Pow2(m) * Pow2(n)
  {
    if m == 0 {
    } else {
      Pow2Add(m - 1, n);
      assert Pow2(m + n) == 2 * Pow2(m - 1 + n);
      assert 2 * (Pow2(m - 1) * Pow2(n)) == (2 * Pow2(m - 1)) * Pow2(n);
    }
  }

  lemma {:induction false} Pow2Mono(m: nat, n: nat)
    requires m <= n
    ensures Pow2(m) <= Pow2(n)
  {
    Pow2Add(m, n - m);
    MulAtLeast(Pow2(m), Pow2(n - m));
  }

  lemma MulAtLeast(a: nat, b: nat)
    requires b >= 1
    ensures a * b >= a
  {
  }

  const WORD := 0x1_0000_0000_0000_0000

  lemma Pow2Values()
    ensures Pow2(4) == 16 && Pow2(8) == 256 && Pow2(15) == 32768 && Pow2(16) == 65536
    ensures Pow2(32) == 0x1_0000_0000 && Pow2(64) == WORD
  {
    assert Pow2(4) == 16;
    Pow2Add(4, 4);
    Pow2Add(8, 8);
    assert Pow2(16) == 2 * Pow2(15);
    Pow2Add(16, 16);
    Pow2Add(32, 32);
  }

  // ---------------------------------------------------------------- quotients and remainders

  lemma DivModUnique(a: nat, b: nat, q: nat, r: nat)
    requires b > 0 && a == q * b + r && r < b
    ensures a / b == q && a % b == r
  {
    var q', r' := a / b, a % b;
    assert a == q' * b + r';
    QuotientUnique(b, q, r, q', r');
  }

  lemma QuotientUnique(b: nat, q: nat, r: nat, q': nat, r': nat)
    requires q * b + r == q' * b + r' && r < b && r' < b
    ensures q == q' && r == r'
  {
    if q < q' {
      MulDiff(q, q', b);
      assert false;
    } else if q' < q {
      MulDiff(q', q, b);
      assert false;
    }
  }

  lemma MulDiff(m: nat, n: nat, b: nat)
    requires m < n
    ensures n * b >= m * b + b
  {
    var d := n - m - 1;
    assert n * b == m * b + b + d * b by { assert n == m + 1 + d; }
    assert d * b >= 0;
  }

  /** Quotient and remainder as plain numbers, so that a proof need not carry the division. */
  lemma Quotient(v: nat, p: nat) returns (d: nat, r: nat)
    requires p > 0
    ensures d == v / p && r == v % p && v == d * p + r && r < p
  {
    d, r := v / p, v % p;
  }

  lemma MulAssoc(a: nat, b: nat, c: nat)
    ensures (a * b) * c == a * (b * c)
  {
  }

  lemma MulDistributes(a: nat, b: nat, c: nat)
    ensures (a + b) * c == a * c + b * c
  {
  }

  /** Dividing by 2p goes through dividing by 2. */
  lemma DoubleDivMod(v: nat, p: nat)
    requires p > 0
    ensures v / (2 * p) == (v / 2) / p && v % (2 * p) == 2 * ((v / 2) % p) + v % 2
  {
    var d, r := Quotient(v / 2, p);
    MulAssoc(d, 2, p);
    DoubleParts(v, p, d, r);
    DivModUnique(v, 2 * p, d, 2 * r + v % 2);
  }

  lemma DoubleParts(v: nat, p: nat, d: nat, r: nat)
    requires v / 2 == d * p + r && r < p
    ensures v == d * (2 * p) + (2 * r + v % 2) && 2 * r + v % 2 < 2 * p
  {
    assert d * (2 * p) == 2 * (d * p);
    assert v == 2 * (v / 2) + v % 2;
  }

  /** Shifting left by k and keeping n + k bits is keeping n bits and shifting left by k. */
  lemma ShlMod(x: nat, k: nat, n: nat)
    ensures (x * Pow2(k)) % Pow2(n + k) == (x % Pow2(n)) * Pow2(k)
  {
    Pow2Add(n, k);
    ScaleMod(x, Pow2(k), Pow2(n));
  }

  lemma ScaleMod(x: nat, p: nat, q: nat)
    requires p > 0 && q > 0
    ensures q * p > 0 && (x * p) % (q * p) == (x % q) * p
  {
    MulLess(0, q, p);
    var d, r := Quotient(x, q);
    MulDistributes(d * q, r, p);
    MulAssoc(d, q, p);
    MulLess(r, q, p);
    DivModUnique(x * p, q * p, d, r * p);
  }

  lemma MulBelow(a: nat, b: nat, c: nat, d: nat)
    requires a <= b && c <= d
    ensures a * c <= b * d
  {
  }

  lemma MulLess(a: nat, b: nat, c: nat)
    requires a < b && c > 0
    ensures a * c < b * c
  {
    MulDiff(a, b, c);
  }

  // ---------------------------------------------------------------- bitwise operators

  /** Shifting right, one bit at a time. */
  function Shr(v: nat, k: nat): nat
  {
    if k == 0 then v else Shr(v / 2, k - 1)
  }

  /** Shifting a 64-bit word left; the bits pushed out at the top are lost. */
  function Shl64(v: nat, k: nat): (r: nat)
    ensures r < WORD
  {
    (v * Pow2(k)) % WORD
  }

  function Shl32(v: nat, k: nat): nat
  {
    (v * Pow2(k)) % 0x1_0000_0000
  }

  function BitOr(a: nat, b: nat): nat
  {
    if a == 0 then b
    else if b == 0 then a
    else 2 * BitOr(a / 2, b / 2) + (if a % 2 == 1 || b % 2 == 1 then 1 else 0)
  }

  function BitAnd(a: nat, b: nat): nat
  {
    if a == 0 || b == 0 then 0
    else 2 * BitAnd(a / 2, b / 2) + (if a % 2 == 1 && b % 2 == 1 then 1 else 0)
  }

  /** Or of numbers whose bits do not overlap is their sum. */
  lemma {:induction false} BitOrDisjoint(x: nat, k: nat, y: nat)
    requires y < Pow2(k)
    ensures BitOr(x * Pow2(k), y) == x * Pow2(k) + y
    decreases k
  {
    if k == 0 || y == 0 || x == 0 {
    } else {
      var h := x * Pow2(k - 1);
      assert x * Pow2(k) == 2 * h;
      assert h > 0 by { MulAtLeast(x, Pow2(k - 1)); }
      BitOrDisjoint(x, k - 1, y / 2);
      assert BitOr(2 * h, y) == 2 * BitOr(h, y / 2) + y % 2;
    }
  }

  /** x times 2^k, by doubling. */
  function Doubled(x: nat, k: nat): nat
  {
    if k == 0 then x else 2 * Doubled(x, k - 1)
  }

  lemma {:induction false} DoubledIs(x: nat, k: nat)
    ensures Doubled(x, k) == x * Pow2(k)
  {
    if k > 0 {
      DoubledIs(x, k - 1);
      TwiceMul(x, Pow2(k - 1));
    }
  }

  lemma {:induction false} BitAndDoubled(a: nat, b: nat, k: nat, x: nat, y: nat, z: nat)
    requires a < Pow2(k) && b < Pow2(k) && z == BitAnd(x, y)
    ensures BitAnd(Doubled(x, k) + a, Doubled(y, k) + b) == Doubled(z, k) + BitAnd(a, b)
    decreases k
  {
    if k == 0 {
      SplitNothing(x, y, a, b);
    } else {
      BitAndDoubled(a / 2, b / 2, k - 1, x, y, z);
      BitAndShifted(a, b, Doubled(x, k - 1), Doubled(y, k - 1), Doubled(z, k - 1));
    }
  }

  /** And works digit group by digit group: here a group of k bits and everything above it,
      with u, v and w standing for x, y and their And, each shifted left by k. */
  lemma BitAndSplit(a: nat, b: nat, k: nat, x: nat, y: nat, u: nat, v: nat, w: nat)
    requires a < Pow2(k) && b < Pow2(k)
    requires u == x * Pow2(k) && v == y * Pow2(k) && w == BitAnd(x, y) * Pow2(k)
    ensures BitAnd(u + a, v + b) == w + BitAnd(a, b)
  {
    DoubledIs(x, k);
    DoubledIs(y, k);
    DoubledIs(BitAnd(x, y), k);
    BitAndDoubled(a, b, k, x, y, BitAnd(x, y));
  }

  lemma BitAndShifted(a: nat, b: nat, u: nat, v: nat, w: nat)
    requires BitAnd(u + a / 2, v + b / 2) == w + BitAnd(a / 2, b / 2)
    ensures BitAnd(2 * u + a, 2 * v + b) == 2 * w + BitAnd(a, b)
  {
    BitAndStep(u + a / 2, a % 2, v + b / 2, b % 2);
    BitAndStep(a / 2, a % 2, b / 2, b % 2);
    assert 2 * (u + a / 2) + a % 2 == 2 * u + a;
    assert 2 * (v + b / 2) + b % 2 == 2 * v + b;
  }

  lemma SplitNothing(x: nat, y: nat, a: nat, b: nat)
    requires a < 1 && b < 1
    ensures BitAnd(x + a, y + b) == BitAnd(x, y) + BitAnd(a, b)
  {
  }

  lemma TwiceMul(a: nat, p: nat)
    ensures a * (2 * p) == 2 * (a * p)
  {
  }

  lemma BitAndStep(u: nat, i: nat, v: nat, j: nat)
    requires i < 2 && j < 2
    ensures BitAnd(2 * u + i, 2 * v + j) == 2 * BitAnd(u, v) + (if i == 1 && j == 1 then 1 else 0)
  {
    assert (2 * u + i) / 2 == u && (2 * v + j) / 2 == v;
  }

  lemma MaskStep(h: nat, i: nat, p: nat)
    requires p > 0 && i < 2 && BitAnd(h, p - 1) == h % p
    ensures BitAnd(2 * h + i, 2 * (p - 1) + 1) == (2 * h + i) % (2 * p)
  {
    BitAndStep(h, i, p - 1, 1);
    DoubleDivMod(2 * h + i, p);
    HalfOf(h, i);
  }

  lemma HalfOf(h: nat, i: nat)
    requires i < 2
    ensures (2 * h + i) / 2 == h && (2 * h + i) % 2 == i
  {
  }

  /** Masking with 2^k - 1 is the remainder modulo 2^k. */
  lemma {:induction false} BitAndMask(v: nat, k: nat)
    ensures BitAnd(v, Pow2(k) - 1) == v % Pow2(k)
    decreases k
  {
    if k == 0 {
    } else {
      BitAndMask(v / 2, k - 1);
      MaskStep(v / 2, v % 2, Pow2(k - 1));
    }
  }

  // ---------------------------------------------------------------- bit strings

  /** The low n bits of v, most significant bit first. */
  function BitsOf(v: nat, n: nat): (s: seq<bool>)
    ensures |s| == n
  {
    if n == 0 then [] else BitsOf(v / 2, n - 1) + [v % 2 == 1]
  }

  /** The number a bit string denotes, most significant bit first. */
  function ValueOf(s: seq<bool>): (v: nat)
  {
    if s == [] then 0 else 2 * ValueOf(s[..|s| - 1]) + (if s[|s| - 1] then 1 else 0)
  }

  lemma {:induction false} ValueOfBitsOf(v: nat, n: nat)
    ensures ValueOf(BitsOf(v, n)) == v % Pow2(n)
  {
    if n == 0 {
    } else {
      ValueOfBitsOf(v / 2, n - 1);
      var s := BitsOf(v, n);
      assert s[..n - 1] == BitsOf(v / 2, n - 1);
      DoubleDivMod(v, Pow2(n - 1));
    }
  }

  lemma {:induction false} ValueOfBound(s: seq<bool>)
    ensures ValueOf(s) < Pow2(|s|)
  {
    if s != [] {
      ValueOfBound(s[..|s| - 1]);
    }
  }

  lemma {:induction false} BitsOfValueOf(s: seq<bool>)
    ensures BitsOf(ValueOf(s), |s|) == s
  {
    if s != [] {
      BitsOfValueOf(s[..|s| - 1]);
      assert s == s[..|s| - 1] + [s[|s| - 1]];
    }
  }

  lemma {:induction false} BitsOfConcat(x: nat, n: nat, y: nat, k: nat)
    requires y < Pow2(k)
    ensures BitsOf(x * Pow2(k) + y, n + k) == BitsOf(x, n) + BitsOf(y, k)
  {
    if k == 0 {
      assert BitsOf(x, n) + [] == BitsOf(x, n);
    } else {
      var p := Pow2(k - 1);
      assert x * Pow2(k) == 2 * (x * p);
      var v := x * Pow2(k) + y;
      assert v / 2 == x * p + y / 2 && v % 2 == y % 2;
      BitsOfConcat(x, n, y / 2, k - 1);
      assert BitsOf(v, n + k) == BitsOf(v / 2, n + k - 1) + [v % 2 == 1];
      assert BitsOf(x, n) + BitsOf(y / 2, k - 1) + [y % 2 == 1]
          == BitsOf(x, n) + (BitsOf(y / 2, k - 1) + [y % 2 == 1]);
    }
  }

  /** The bits above position n do not matter to the low n bits. */
  lemma {:induction false} BitsOfHigh(h: nat, v: nat, n: nat)
    ensures BitsOf(h * Pow2(n) + v, n) == BitsOf(v, n)
  {
    if n == 0 {
    } else {
      assert h * Pow2(n) == 2 * (h * Pow2(n - 1));
      BitsOfHigh(h, v / 2, n - 1);
      assert (h * Pow2(n) + v) / 2 == h * Pow2(n - 1) + v / 2;
    }
  }

  lemma BitsOfMod(v: nat, n: nat)
    ensures BitsOf(v % Pow2(n), n) == BitsOf(v, n)
  {
    var d, r := Quotient(v, Pow2(n));
    BitsOfHigh(d, r, n);
  }

  /** Shifting right drops the lowest k bits. */
  lemma {:induction false} BitsOfShr(v: nat, n: nat, k: nat)
    ensures BitsOf(v, n + k) == BitsOf(Shr(v, k), n) + BitsOf(v, k)
  {
    if k == 0 {
      assert BitsOf(v, n) + [] == BitsOf(v, n);
    } else {
      BitsOfShr(v / 2, n, k - 1);
    }
  }

  /** Shifting a word left by k and or-ing in k fresh bits appends those bits to its low bits. */
  lemma BitsOfShlOr(v: nat, n: nat, y: nat, k: nat)
    requires y < Pow2(k) && n + k <= 64
    ensures BitOr(Shl64(v, k), y) < WORD
    ensures BitsOf(BitOr(Shl64(v, k), y), n + k) == BitsOf(v, n) + BitsOf(y, k)
  {
    var m := 64 - k;
    Pow2Values();
    ShlMod(v, k, m);
    var low := v % Pow2(m);
    BitOrDisjoint(low, k, y);
    Pow2Add(m, k);
    MulDiff(low, Pow2(m), Pow2(k));
    BitsOfConcat(low, n, y, k);
    BitsOfMod(v, m);
    BitsOfPrefix(low, v, n, m);
  }

  /** Numbers that agree on their low m bits agree on fewer. */
  lemma {:induction false} BitsOfPrefix(u: nat, v: nat, n: nat, m: nat)
    requires n <= m && BitsOf(u, m) == BitsOf(v, m)
    ensures BitsOf(u, n) == BitsOf(v, n)
  {
    BitsOfShr(u, m - n, n);
    BitsOfShr(v, m - n, n);
    assert BitsOf(u, n) == BitsOf(u, m)[m - n..];
    assert BitsOf(v, n) == BitsOf(v, m)[m - n..];
  }

  lemma {:induction false} ShrBound(v: nat, k: nat, n: nat)
    requires v < Pow2(n + k)
    ensures Shr(v, k) < Pow2(n)
  {
    if k != 0 {
      ShrBound(v / 2, k - 1, n);
    }
  }
}

/** Canonical Huffman codes (Annex C of T.81) and their decoder (section F.2.2.3). */
module HuffmanCode {
  import opened Bits
  import opened Sequences

  // lengths[i] is the number of codes of i + 1 bits

  predicate IsLengths(lengths: seq<nat>)
  {
    |lengths| == 16
  }

  /** How many codes have at most n bits. */
  function Count(lengths: seq<nat>, n: nat): nat
    requires n <= |lengths|
  {
    if n == 0 then 0 else Count(lengths, n - 1) + lengths[n - 1]
  }

  /** How many n-bit strings are codes or start with a shorter code, if no code is a prefix of
      another: 2^n times the Kraft sum of the codes of at most n bits. */
  function Taken(lengths: seq<nat>, n: nat): nat
    requires n <= |lengths|
  {
    if n == 0 then 0 else 2 * Taken(lengths, n - 1) + lengths[n - 1]
  }

  /** The Kraft sum is below one. */
  predicate KraftBelowOne(lengths: seq<nat>)
    requires IsLengths(lengths)
  {
    Taken(lengths, 16) < 0x1_0000
  }

  lemma {:induction false} TakenFits(lengths: seq<nat>, n: nat)
    requires IsLengths(lengths) && KraftBelowOne(lengths) && n <= 16
    ensures Taken(lengths, n) < Pow2(n)
    decreases 16 - n
  {
    if n == 16 {
      Pow2Values();
    } else {
      TakenFits(lengths, n + 1);
    }
  }

  lemma {:induction false} CountMono(lengths: seq<nat>, m: nat, n: nat)
    requires m <= n <= |lengths|
    ensures Count(lengths, m) <= Count(lengths, n)
  {
    if m < n {
      CountMono(lengths, m, n - 1);
    }
  }

  lemma {:induction false} TakenOverGap(lengths: seq<nat>, m: nat, n: nat)
    requires m <= n <= |lengths| && Count(lengths, m) == Count(lengths, n)
    ensures Taken(lengths, n) == Taken(lengths, m) * Pow2(n - m)
  {
    if m < n {
      CountMono(lengths, m, n - 1);
      TakenOverGap(lengths, m, n - 1);
      TwiceMul(Taken(lengths, m), Pow2(n - 1 - m));
    }
  }

  /** k is the index, in order of increasing size, of a code of s bits. */
  predicate HasSize(lengths: seq<nat>, k: nat, s: nat)
    requires IsLengths(lengths)
  {
    1 <= s <= 16 && Count(lengths, s - 1) <= k < Count(lengths, s)
  }

  /** The code of s bits at index k: codes of one size are consecutive numbers, and the first one
      follows the last shorter code, extended by zeros. */
  function CodeAt(lengths: seq<nat>, k: nat, s: nat): nat
    requires IsLengths(lengths) && HasSize(lengths, k, s)
  {
    2 * Taken(lengths, s - 1) + (k - Count(lengths, s - 1))
  }

  lemma SizeUnique(lengths: seq<nat>, k: nat, s: nat, t: nat)
    requires IsLengths(lengths) && HasSize(lengths, k, s) && HasSize(lengths, k, t)
    ensures s == t
  {
    if s < t {
      CountMono(lengths, s, t - 1);
    } else if t < s {
      CountMono(lengths, t, s - 1);
    }
  }

  /** Codes fit their size, and the one that is all ones is never used. */
  lemma CodeFits(lengths: seq<nat>, k: nat, s: nat)
    requires IsLengths(lengths) && KraftBelowOne(lengths) && HasSize(lengths, k, s)
    ensures CodeAt(lengths, k, s) < Taken(lengths, s) < Pow2(s)
    ensures CodeAt(lengths, k, s) < Pow2(s) - 1
  {
    TakenFits(lengths, s);
  }

  // ---------------------------------------------------------------- construction

  ghost predicate AreSizes(lengths: seq<nat>, sizes: seq<nat>)
    requires IsLengths(lengths)
  {
    && |sizes| == 256
    && Count(lengths, 16) <= 256
    && (forall k :: 0 <= k < Count(lengths, 16) ==> HasSize(lengths, k, sizes[k]))
    && (forall k :: Count(lengths, 16) <= k < 256 ==> sizes[k] == 0)
  }

  ghost predicate AreCodes(lengths: seq<nat>, sizes: seq<nat>, codes: seq<nat>)
    requires IsLengths(lengths) && AreSizes(lengths, sizes)
  {
    && |codes| == 256
    && (forall k :: 0 <= k < Count(lengths, 16) ==> codes[k] == CodeAt(lengths, k, sizes[k]))
    && (forall k :: Count(lengths, 16) <= k < 256 ==> codes[k] == 0)
  }

  /** Figure C.1. */
  method CreateSizes(lengths: seq<nat>) returns (r: seq<nat>)
    requires IsLengths(lengths) && Count(lengths, 16) <= 256
    ensures AreSizes(lengths, r)
  {
    var sizes := new nat[256](_ => 0);
    var k := 0;
    for i := 0 to 16
      invariant k == Count(lengths, i) <= 256
      invariant forall m :: 0 <= m < k ==> HasSize(lengths, m, sizes[m])
      invariant forall m :: k <= m < 256 ==> sizes[m] == 0
    {
      CountMono(lengths, i + 1, 16);
      for n := 0 to lengths[i]
        invariant k == Count(lengths, i) + n
        invariant forall m :: 0 <= m < k ==> HasSize(lengths, m, sizes[m])
        invariant forall m :: k <= m < 256 ==> sizes[m] == 0
      {
        sizes[k] := i + 1;
        k := k + 1;
      }
    }
    r := sizes[..];
  }

  /** Figure C.2. The running code never leaves 16 bits. */
  method CreateCodes(ghost lengths: seq<nat>, sizes: seq<nat>) returns (r: seq<nat>)
    requires IsLengths(lengths) && KraftBelowOne(lengths) && AreSizes(lengths, sizes)
    ensures AreCodes(lengths, sizes, r)
  {
    var codes := new nat[256](_ => 0);
    var currentCode: nat := 0;
    var currentSize := sizes[0];
    var k := 0;
    if sizes[0] != 0 {
      FirstSize(lengths, sizes[0]);
    }
    while k < 256 && sizes[k] != 0
      invariant 0 <= k <= Count(lengths, 16)
      invariant currentSize == 0 ==> sizes[0] == 0
      invariant currentSize != 0 ==> Running(lengths, k, currentSize, currentCode)
      invariant currentCode < 0x1_0000
      invariant forall m :: 0 <= m < k ==> codes[m] == CodeAt(lengths, m, sizes[m])
      invariant forall m :: k <= m < 256 ==> codes[m] == 0
    {
      assert HasSize(lengths, k, sizes[k]);
      NextSize(lengths, k, currentSize, sizes[k], currentCode);
      if currentSize != sizes[k] {
        var sizeDiff := sizes[k] - currentSize;
        currentCode := currentCode * Pow2(sizeDiff);
        currentSize := sizes[k];
      }
      codes[k] := currentCode;
      currentCode := currentCode + 1;
      k := k + 1;
      CountMono(lengths, currentSize, 16);
    }
    r := codes[..];
  }

  /** The state of the code counter before index k. */
  predicate Running(lengths: seq<nat>, k: nat, size: nat, code: nat)
    requires IsLengths(lengths)
  {
    && 1 <= size <= 16
    && Count(lengths, size - 1) <= k <= Count(lengths, size)
    && code == 2 * Taken(lengths, size - 1) + (k - Count(lengths, size - 1))
  }

  lemma FirstSize(lengths: seq<nat>, s: nat)
    requires IsLengths(lengths) && HasSize(lengths, 0, s)
    ensures Running(lengths, 0, s, 0)
  {
    TakenOverGap(lengths, 0, s - 1);
  }

  lemma CodeBelow16(lengths: seq<nat>, k: nat, s: nat)
    requires IsLengths(lengths) && KraftBelowOne(lengths) && HasSize(lengths, k, s)
    ensures CodeAt(lengths, k, s) < 0xFFFF
  {
    CodeFits(lengths, k, s);
    Pow2Values();
    Pow2Mono(s, 16);
  }

  /** Moving on to the size of index k: shift by the difference. */
  lemma NextSize(lengths: seq<nat>, k: nat, size: nat, next: nat, code: nat)
    requires IsLengths(lengths) && Running(lengths, k, size, code) && HasSize(lengths, k, next)
    requires KraftBelowOne(lengths)
    ensures size <= next
    ensures CodeAt(lengths, k, next) == code * Pow2(next - size) < 0xFFFF
    ensures Running(lengths, k + 1, next, CodeAt(lengths, k, next) + 1)
    ensures size == next ==> CodeAt(lengths, k, next) == code
  {
    CodeBelow16(lengths, k, next);
    if next < size {
      CountMono(lengths, next, size - 1);
    } else if size < next {
      CountMono(lengths, size, next - 1);
      TakenOverGap(lengths, size, next - 1);
      TwiceMul(Taken(lengths, size), Pow2(next - 1 - size));
    }
  }

  datatype Entry = Entry(size: nat, code: nat)

  type Lookup = s: seq<Entry> | |s| == 256 witness seq(256, _ => Entry(0, 0))

  type Lengths = s: seq<nat> | |s| == 16 witness seq(16, _ => 0)

  datatype HuffmanTable = HuffmanTable(lookup: Lookup, length: Lengths, values: seq<byte>)

  /** The lengths and values describe a code. */
  ghost predicate ValidSpec(lengths: seq<nat>, values: seq<byte>)
  {
    && IsLengths(lengths)
    && KraftBelowOne(lengths)
    && |values| == Count(lengths, 16) <= 256
    && Distinct(values)
  }

  /** The lookup table holds the canonical code of every value, and size 0 for every other symbol. */
  ghost predicate ValidTable(t: HuffmanTable)
  {
    && ValidSpec(t.length, t.values)
    && (forall k :: 0 <= k < |t.values| ==>
          HasSize(t.length, k, t.lookup[t.values[k]].size)
          && t.lookup[t.values[k]].code == CodeAt(t.length, k, t.lookup[t.values[k]].size))
    && (forall v: byte :: v !in t.values ==> t.lookup[v] == Entry(0, 0))
  }

  /** The counts and the values determine the table. */
  lemma TableDetermined(t: HuffmanTable, u: HuffmanTable)
    requires ValidTable(t) && ValidTable(u) && t.length == u.length && t.values == u.values
    ensures t == u
  {
    forall v: byte ensures t.lookup[v] == u.lookup[v] {
      if v in t.values {
        var k :| 0 <= k < |t.values| && t.values[k] == v;
        SizeUnique(t.length, k, t.lookup[v].size, u.lookup[v].size);
      }
    }
    assert t.lookup == u.lookup;
  }

  /** Figure C.3. */
  method CreateLookupTable(lengths: Lengths, values: seq<byte>) returns (r: Lookup)
    requires ValidSpec(lengths, values)
    ensures ValidTable(HuffmanTable(r, lengths, values))
  {
    var sizes := CreateSizes(lengths);
    var codes := CreateCodes(lengths, sizes);
    var lookup := new Entry[256](_ => Entry(0, 0));
    for i := 0 to |values|
      invariant forall k :: 0 <= k < i ==> lookup[values[k]] == Entry(sizes[k], codes[k])
      invariant forall v: byte :: v !in values[..i] ==> lookup[v] == Entry(0, 0)
    {
      lookup[values[i]] := Entry(sizes[i], codes[i]);
      assert values[..i + 1] == values[..i] + [values[i]];
    }
    r := lookup[..];
    assert values[..|values|] == values;
  }

  method NewHuffmanTable(lengths: Lengths, values: seq<byte>) returns (t: HuffmanTable)
    requires ValidSpec(lengths, values)
    ensures ValidTable(t) && t.length == lengths && t.values == values
  {
    var lookup := CreateLookupTable(lengths, values);
    t := HuffmanTable(lookup, lengths, values);
  }

  // ---------------------------------------------------------------- decoding

  datatype Decoded<T> = Fail | Got(value: T, rest: seq<bool>)

  /** Procedure DECODE (Figure F.16): extend the code bit by bit until it is within the range of the
      codes of its size. MINCODE(i) is 2 * Taken(i - 1), MAXCODE(i) is Taken(i) - 1 and VALPTR(i) is
      Count(i - 1). */
  function DecodeFrom(lengths: seq<nat>, values: seq<byte>, n: nat, code: nat, bits: seq<bool>): Decoded<byte>
    requires IsLengths(lengths) && n <= 16 && code >= Taken(lengths, n)
    decreases |bits|
  {
    if n == 16 || bits == [] then Fail
    else
      var next := 2 * code + (if bits[0] then 1 else 0);
      if next < Taken(lengths, n + 1) then
        var index := Count(lengths, n) + (next - 2 * Taken(lengths, n));
        if index < |values| then Got(values[index], bits[1..]) else Fail
      else
        DecodeFrom(lengths, values, n + 1, next, bits[1..])
  }

  function DecodeSymbol(lengths: seq<nat>, values: seq<byte>, bits: seq<bool>): Decoded<byte>
    requires IsLengths(lengths)
  {
    DecodeFrom(lengths, values, 0, 0, bits)
  }

  /** The bits the encoder writes for a symbol. */
  function SymbolBits(t: HuffmanTable, v: byte): seq<bool>
  {
    BitsOf(t.lookup[v].code, t.lookup[v].size)
  }

  /** Taking the leading bit off the low n bits. */
  lemma {:induction false} LeadingBit(c: nat, n: nat)
    requires n > 0
    ensures Shr(c, n - 1) == 2 * Shr(c, n) + Shr(c, n - 1) % 2
    ensures BitsOf(c, n)[0] == (Shr(c, n - 1) % 2 == 1)
    ensures BitsOf(c, n)[1..] == BitsOf(c, n - 1)
  {
    if n == 1 {
      assert Shr(c, 1) == Shr(c / 2, 0);
    } else {
      LeadingBit(c / 2, n - 1);
      assert BitsOf(c, n)[1..] == BitsOf(c / 2, n - 1)[1..] + [c % 2 == 1];
    }
  }

  /** Every proper prefix of a code lies beyond the codes of its size. */
  lemma {:induction false} PrefixBeyond(lengths: seq<nat>, s: nat, c: nat, n: nat)
    requires IsLengths(lengths) && n < s <= 16 && c >= 2 * Taken(lengths, s - 1)
    ensures Shr(c, s - n) >= Taken(lengths, n)
    decreases s - n
  {
    assert Shr(c, 1) == Shr(c / 2, 0);
    if n < s - 1 {
      PrefixBeyond(lengths, s, c, n + 1);
      LeadingBit(c, s - n);
    }
  }

  lemma {:induction false} DecodeFromCode(lengths: seq<nat>, values: seq<byte>, k: nat, s: nat, n: nat, rest: seq<bool>)
    requires ValidSpec(lengths, values) && k < |values| && HasSize(lengths, k, s) && n < s
    ensures Shr(CodeAt(lengths, k, s), s - n) >= Taken(lengths, n)
    ensures DecodeFrom(lengths, values, n, Shr(CodeAt(lengths, k, s), s - n),
                       BitsOf(CodeAt(lengths, k, s), s - n) + rest) == Got(values[k], rest)
    decreases s - n
  {
    var c := CodeAt(lengths, k, s);
    PrefixBeyond(lengths, s, c, n);
    LeadingBit(c, s - n);
    var bits := BitsOf(c, s - n) + rest;
    assert bits[1..] == BitsOf(c, s - n - 1) + rest;
    if n + 1 < s {
      PrefixBeyond(lengths, s, c, n + 1);
      DecodeFromCode(lengths, values, k, s, n + 1, rest);
    } else {
      assert bits[1..] == rest;
      CodeFits(lengths, k, s);
    }
  }

  lemma {:induction false} ShrAll(c: nat, s: nat)
    requires c < Pow2(s)
    ensures Shr(c, s) == 0
  {
    if s > 0 {
      ShrAll(c / 2, s - 1);
    }
  }

  /** Looking a symbol up and decoding its bits gives the symbol back, whatever follows. */
  lemma DecodeEncodeSymbol(t: HuffmanTable, v: byte, rest: seq<bool>)
    requires ValidTable(t) && v in t.values
    ensures DecodeSymbol(t.length, t.values, SymbolBits(t, v) + rest) == Got(v, rest)
  {
    var k :| 0 <= k < |t.values| && t.values[k] == v;
    var s := t.lookup[v].size;
    CodeFits(t.length, k, s);
    ShrAll(CodeAt(t.length, k, s), s);
    DecodeFromCode(t.length, t.values, k, s, 0, rest);
  }

  /** No code is a prefix of another. */
  lemma PrefixFree(t: HuffmanTable, u: byte, v: byte)
    requires ValidTable(t) && u in t.values && v in t.values && u != v
    ensures !(SymbolBits(t, u) <= SymbolBits(t, v))
  {
    if SymbolBits(t, u) <= SymbolBits(t, v) {
      var rest := SymbolBits(t, v)[|SymbolBits(t, u)|..];
      assert SymbolBits(t, v) == SymbolBits(t, u) + rest;
      assert SymbolBits(t, v) == SymbolBits(t, v) + [];
      DecodeEncodeSymbol(t, u, rest);
      DecodeEncodeSymbol(t, v, []);
    }
  }

  /** Codes have 1 to 16 bits, fit them, and are never all ones. */
  lemma CodeShape(t: HuffmanTable, v: byte)
    requires ValidTable(t) && v in t.values
    ensures 1 <= t.lookup[v].size <= 16
    ensures t.lookup[v].code < Pow2(t.lookup[v].size) - 1
    ensures t.lookup[v].code < 0xFFFF
  {
    var k :| 0 <= k < |t.values| && t.values[k] == v;
    CodeFits(t.length, k, t.lookup[v].size);
    CodeBelow16(t.length, k, t.lookup[v].size);
  }
}

/** Huffman coding of quantised blocks (section F.1.2 of ITU-T T.81) and their decoding (F.2.2). */
module EntropyCoding {
  import opened Bits
  import opened HuffmanCode
  import opened Sequences

  // ---------------------------------------------------------------- values and their categories

  type int16 = n: int | -0x8000 <= n < 0x8000

  /** The value a 16-bit result keeps when it overflows. */
  function Wrap16(n: int): int16
  {
    (n + 0x8000) % 0x1_0000 - 0x8000
  }

  /** A 16-bit subtraction. */
  function Sub16(a: int, b: int): int16
  {
    Wrap16(a - b)
  }

  /** The 16-bit word of a number: arithmetic wraps. */
  function Word16(n: int): (w: nat)
    ensures w < 0x1_0000
  {
    n % 0x1_0000
  }

  function BitLength(v: nat): nat
  {
    if v == 0 then 0 else 1 + BitLength(v / 2)
  }

  function LeadingZeros16(v: nat): int
  {
    16 - BitLength(v)
  }

  lemma OrOne(h: nat)
    ensures BitOr(2 * h, 1) == 2 * h + 1
  {
    assert Pow2(1) == 2;
    BitOrDisjoint(h, 1, 1);
  }

  function Magnitude(value: int): nat
  {
    if value < 0 then -value else value
  }

  /** num_bits of get_code, from the magnitude as a 16-bit word. */
  function NumBits(magnitude: nat): (n: nat)
    requires magnitude <= 0x8000
    ensures n == BitLength(if magnitude == 0x8000 then 0 else magnitude)
  {
    NumBitsLength(magnitude);
    15 - LeadingZeros16(BitOr(Word16(magnitude * 2), 1))
  }

  lemma NumBitsLength(magnitude: nat)
    requires magnitude <= 0x8000
    ensures 15 - LeadingZeros16(BitOr(Word16(magnitude * 2), 1))
         == BitLength(if magnitude == 0x8000 then 0 else magnitude)
  {
    var h := if magnitude == 0x8000 then 0 else magnitude;
    OrOne(h);
    assert Word16(magnitude * 2) == 2 * h;
    assert BitLength(2 * h + 1) == 1 + BitLength(h);
  }

  /** The number of bits of a value and the bits themselves, computed in 16-bit words. */
  function GetCode(value: int16): (nat, nat)
  {
    LowBits(Word16(value - (if value < 0 then 1 else 0)), NumBits(Magnitude(value)))
  }

  function LowBits(temp: nat, numBits: nat): (nat, nat)
  {
    (numBits, BitAnd(temp, Pow2(numBits) - 1))
  }

  /** EXTEND (Figure F.12): the value that n bits stand for. */
  function Extend(v: nat, n: nat): int
  {
    if n == 0 then 0
    else if v < Pow2(n - 1) then v - (Pow2(n) - 1)
    else v
  }

  lemma {:induction false} BitLengthBounds(v: nat)
    ensures v < Pow2(BitLength(v))
    ensures v > 0 ==> Pow2(BitLength(v) - 1) <= v
  {
    if v > 0 {
      BitLengthBounds(v / 2);
    }
  }

  lemma {:induction false} BitLengthAtMost(v: nat, n: nat)
    requires v < Pow2(n)
    ensures BitLength(v) <= n
  {
    if v > 0 {
      BitLengthAtMost(v / 2, n - 1);
    }
  }

  /** What get_code computes: the bit length of the magnitude, and the value, or for a negative one
      the value less one, cut to that many bits. The magnitude of -32768 has no 16-bit form. */
  lemma GetCodeValue(value: int16)
    ensures GetCode(value).0 == CategoryOf(value)
    ensures value != -0x8000 ==>
              GetCode(value).1 == if value < 0 then Pow2(CategoryOf(value)) - 1 + value else value
  {
    if value >= 0 {
      LowBitsOf(value);
    } else if value != -0x8000 {
      LowBitsOfNegative(value);
    }
  }

  function CategoryOf(value: int16): nat
  {
    BitLength(if value == -0x8000 then 0 else Magnitude(value))
  }

  lemma LowBitsOf(m: nat)
    requires m < 0x8000
    ensures GetCode(m) == (BitLength(m), m)
  {
    WordSmall(m);
    GetCodeParts(m, m, BitLength(m));
    MaskSmall(m);
  }

  lemma WordSmall(m: nat)
    requires m < 0x8000
    ensures Word16(m) == m
  {
  }

  lemma GetCodeParts(value: int16, temp: nat, n: nat)
    requires value != -0x8000 && temp == Word16(if value < 0 then value - 1 else value)
    requires n == BitLength(Magnitude(value))
    ensures GetCode(value) == LowBits(temp, n)
  {
    NumBitsOf(Magnitude(value), n);
  }

  lemma NumBitsOf(m: nat, n: nat)
    requires m < 0x8000 && n == BitLength(m)
    ensures NumBits(m) == n
  {
  }

  lemma MaskSmall(m: nat)
    ensures BitAnd(m, Pow2(BitLength(m)) - 1) == m
  {
    BitLengthBounds(m);
    ModSmall(m, Pow2(BitLength(m)));
    MaskRemainder(m, BitLength(m), m);
  }

  lemma ModSmall(m: nat, p: nat)
    requires m < p
    ensures m % p == m
  {
  }

  lemma LowBitsOfNegative(value: int16)
    requires -0x8000 < value < 0
    ensures GetCode(value) == (BitLength(-value), Pow2(BitLength(-value)) - 1 + value)
  {
    WrapNegative(value);
    GetCodeParts(value, 0xFFFF + value, BitLength(-value));
    NegativeMask(-value, BitLength(-value));
  }

  lemma NegativeMask(m: nat, n: nat)
    requires 0 < m < 0x8000 && n == BitLength(m)
    ensures BitAnd(0xFFFF - m, Pow2(n) - 1) == Pow2(n) - 1 - m
  {
    BitLengthBounds(m);
    BitLengthAtMost16(m);
    NegativeLowBits(0xFFFF - m, m, n);
    MaskRemainder(0xFFFF - m, n, Pow2(n) - 1 - m);
  }

  lemma WrapNegative(value: int)
    requires -0x8000 < value < 0
    ensures Word16(value - 1) == 0xFFFF + value
  {
  }

  lemma MaskRemainder(v: nat, n: nat, r: nat)
    requires v % Pow2(n) == r
    ensures BitAnd(v, Pow2(n) - 1) == r
  {
    BitAndMask(v, n);
  }

  lemma BitLengthAtMost16(m: nat)
    requires m < 0x8000
    ensures BitLength(m) <= 15
  {
    Pow2Values();
    BitLengthAtMost(m, 15);
  }

  lemma NegativeLowBits(temp: nat, m: nat, n: nat)
    requires 0 < m < Pow2(n) && n <= 15 && temp == 0xFFFF - m
    ensures temp % Pow2(n) == Pow2(n) - 1 - m
  {
    Pow2Values();
    Pow2Add(16 - n, n);
    var q := Pow2(16 - n);
    assert 0x1_0000 == q * Pow2(n);
    MulDistributes(q - 1, 1, Pow2(n));
    DivModUnique(temp, Pow2(n), q - 1, Pow2(n) - 1 - m);
  }

  /** The category of a value and its bits recover the value, for every value but -32768. */
  lemma ExtendGetCode(value: int16)
    ensures var (n, c) := GetCode(value); n <= 15 && c < Pow2(n)
    ensures var (n, c) := GetCode(value); Extend(c, n) == value <==> value != -0x8000
    ensures var (n, c) := GetCode(value); n == 0 <==> value == 0 || value == -0x8000
  {
    GetCodeValue(value);
    var m := Magnitude(value);
    if value != -0x8000 {
      BitLengthBounds(m);
      BitLengthAtMost16(m);
    } else {
      assert Pow2(0) - 1 == 0;
      BitAndMask(Word16(value - 1), 0);
    }
  }

  // ---------------------------------------------------------------- coded items

  /** Coefficients of a block in zigzag order. */
  type Block = b: seq<int16> | |b| == 64 witness seq(64, _ => 0)

  /** A Huffman symbol and the value bits behind it. */
  datatype Item = Item(symbol: byte, size: nat, extra: nat)

  // a run of sixteen zeros, and the end of a block
  const ZRL := Item(0xF0, 0, 0)
  const EOB := Item(0x00, 0, 0)

  function DcItem(diff: int16): Item
  {
    ExtendGetCode(diff);
    var (size, extra) := GetCode(diff);
    Item(size, size, extra)
  }

  function AcItem(run: nat, value: int16): Item
    requires run < 16
  {
    ExtendGetCode(value);
    var (size, extra) := GetCode(value);
    Item(16 * run + size, size, extra)
  }

  lemma SymbolParts(run: nat, size: nat)
    requires run <= 15 && size <= 15
    ensures BitOr(run * 16, size) == 16 * run + size
  {
    Pow2Values();
    BitOrDisjoint(run, 4, size);
  }

  /** The items of the coefficients from k on, when `run` zeros before k are not coded yet. */
  function AcItems(block: Block, k: nat, run: nat): seq<Item>
    requires k <= 64
    decreases 64 - k, run
  {
    if k == 64 then if run > 0 then [EOB] else []
    else if block[k] == 0 then AcItems(block, k + 1, run + 1)
    else if run > 15 then [ZRL] + AcItems(block, k, run - 16)
    else [AcItem(run, block[k])] + AcItems(block, k + 1, 0)
  }

  function ItemBits(t: HuffmanTable, i: Item): seq<bool>
  {
    SymbolBits(t, i.symbol) + BitsOf(i.extra, i.size)
  }

  function ItemsBits(t: HuffmanTable, items: seq<Item>): seq<bool>
  {
    if items == [] then [] else ItemBits(t, items[0]) + ItemsBits(t, items[1..])
  }

  lemma {:induction false} ItemsBitsAppend(t: HuffmanTable, items: seq<Item>, i: Item)
    ensures ItemsBits(t, items + [i]) == ItemsBits(t, items) + ItemBits(t, i)
  {
    if items == [] {
      assert [] + [i] == [i];
      assert ItemsBits(t, [i]) == ItemBits(t, i) + [];
    } else {
      ItemsBitsAppend(t, items[1..], i);
      assert (items + [i])[1..] == items[1..] + [i];
    }
  }

  /** The table has a code for every item. */
  ghost predicate Covers(t: HuffmanTable, items: seq<Item>)
  {
    forall i :: 0 <= i < |items| ==> items[i].symbol in t.values
  }

  function BlockBits(block: Block, diff: int16, dc: HuffmanTable, ac: HuffmanTable): seq<bool>
  {
    ItemBits(dc, DcItem(diff)) + ItemsBits(ac, AcItems(block, 1, 0))
  }

  // ---------------------------------------------------------------- decoding

  function Zeros(n: nat): (s: seq<int>)
    ensures |s| == n && forall i :: 0 <= i < n ==> s[i] == 0
  {
    seq(n, _ => 0)
  }

  /** RECEIVE and EXTEND (Figures F.17 and F.12). */
  function ReceiveExtend(n: nat, bits: seq<bool>): Decoded<int>
  {
    if n > |bits| then Fail else Got(Extend(ValueOf(bits[..n]), n), bits[n..])
  }

  /** Section F.2.2.1. */
  function DecodeDc(lengths: seq<nat>, values: seq<byte>, prediction: int, bits: seq<bool>): Decoded<int>
    requires IsLengths(lengths)
  {
    match DecodeSymbol(lengths, values, bits)
    case Fail => Fail
    case Got(size, rest) =>
      match ReceiveExtend(size, rest)
      case Fail => Fail
      case Got(diff, rest') => Got(prediction + diff, rest')
  }

  /** Section F.2.2.2, the coefficients from k on. */
  function DecodeAc(lengths: seq<nat>, values: seq<byte>, k: nat, bits: seq<bool>): Decoded<seq<int>>
    requires IsLengths(lengths) && k <= 64
    decreases 64 - k
  {
    if k == 64 then Got([], bits)
    else
      match DecodeSymbol(lengths, values, bits)
      case Fail => Fail
      case Got(symbol, rest) =>
        var run, size := symbol / 16, symbol % 16;
        if size == 0 && run != 15 then Got(Zeros(64 - k), rest)
        else if k + run > 63 then Fail
        else
          match ReceiveExtend(size, rest)
          case Fail => Fail
          case Got(value, rest') =>
            match DecodeAc(lengths, values, k + run + 1, rest')
            case Fail => Fail
            case Got(tail, rest'') => Got(Zeros(run) + [value] + tail, rest'')
  }

  function DecodeBlock(dc: HuffmanTable, ac: HuffmanTable, prediction: int, bits: seq<bool>): Decoded<seq<int>>
  {
    match DecodeDc(dc.length, dc.values, prediction, bits)
    case Fail => Fail
    case Got(first, rest) =>
      match DecodeAc(ac.length, ac.values, 1, rest)
      case Fail => Fail
      case Got(tail, rest') => Got([first] + tail, rest')
  }

  // ---------------------------------------------------------------- round trips

  lemma ReceiveExtra(value: int16, rest: seq<bool>)
    requires value != -0x8000
    ensures var (n, c) := GetCode(value); ReceiveExtend(n, BitsOf(c, n) + rest) == Got(value, rest)
  {
    ExtendGetCode(value);
    var (n, c) := GetCode(value);
    var bits := BitsOf(c, n) + rest;
    assert bits[..n] == BitsOf(c, n) && bits[n..] == rest;
    ValueOfBitsOf(c, n);
    ModSmall(c, Pow2(n));
  }

  lemma DecodeDcItem(t: HuffmanTable, prediction: int, diff: int16, rest: seq<bool>)
    requires ValidTable(t) && DcItem(diff).symbol in t.values && diff != -0x8000
    ensures DecodeDc(t.length, t.values, prediction, ItemBits(t, DcItem(diff)) + rest) == Got(prediction + diff, rest)
  {
    var i := DcItem(diff);
    ConcatAssoc(SymbolBits(t, i.symbol), BitsOf(i.extra, i.size), rest);
    DecodeEncodeSymbol(t, i.symbol, BitsOf(i.extra, i.size) + rest);
    ReceiveExtra(diff, rest);
  }

  /** A coefficient the decoder can recover: get_code has no code for -32768. */
  predicate Codable(block: Block)
  {
    forall k :: 1 <= k < 64 ==> block[k] != -0x8000
  }

  /** A point of the encoder's loop: the run zeros before k are pending. */
  ghost predicate Pending(block: Block, k: nat, run: nat)
  {
    && Codable(block) && 1 <= k <= 64 && run < k
    && (forall m :: k - run <= m < k ==> block[m] == 0)
  }

  ghost predicate Decodes(t: HuffmanTable, block: Block, from: nat, items: seq<Item>, rest: seq<bool>)
    requires from <= 64
  {
    DecodeAc(t.length, t.values, from, ItemsBits(t, items) + rest) == Got(block[from..], rest)
  }

  /** Decoding the items from k on gives back the pending zeros and the coefficients from k on. */
  lemma {:induction false} DecodeAcItems(t: HuffmanTable, block: Block, k: nat, run: nat, rest: seq<bool>)
    requires ValidTable(t) && Pending(block, k, run) && Covers(t, AcItems(block, k, run))
    ensures Decodes(t, block, k - run, AcItems(block, k, run), rest)
    decreases 64 - k, run
  {
    if k == 64 {
      EndOfItems(t, block, run, rest);
    } else if block[k] == 0 {
      DecodeAcItems(t, block, k + 1, run + 1, rest);
      AnotherZero(t, block, k, run, rest);
    } else if run > 15 {
      AfterZeros(t, block, k, run);
      DecodeAcItems(t, block, k, run - 16, rest);
      SixteenZeros(t, block, k, run, rest);
    } else {
      AfterCoefficient(t, block, k, run);
      DecodeAcItems(t, block, k + 1, 0, rest);
      Coefficient(t, block, k, run, rest);
    }
  }

  lemma {:induction false} AfterCoefficient(t: HuffmanTable, block: Block, k: nat, run: nat)
    requires Pending(block, k, run) && k < 64 && run < 16 && block[k] != 0 && Covers(t, AcItems(block, k, run))
    ensures Pending(block, k + 1, 0) && Covers(t, AcItems(block, k + 1, 0))
  {
    FirstCovered(t, AcItem(run, block[k]), AcItems(block, k + 1, 0));
  }

  lemma {:induction false} AfterZeros(t: HuffmanTable, block: Block, k: nat, run: nat)
    requires Pending(block, k, run) && k < 64 && run > 15 && block[k] != 0 && Covers(t, AcItems(block, k, run))
    ensures Pending(block, k, run - 16) && Covers(t, AcItems(block, k, run - 16))
  {
    FirstCovered(t, ZRL, AcItems(block, k, run - 16));
  }

  lemma {:induction false} AnotherZero(t: HuffmanTable, block: Block, k: nat, run: nat, rest: seq<bool>)
    requires k < 64 && run < k && block[k] == 0
    requires Decodes(t, block, k + 1 - (run + 1), AcItems(block, k + 1, run + 1), rest)
    ensures Decodes(t, block, k - run, AcItems(block, k, run), rest)
  {
    assert k + 1 - (run + 1) == k - run;
  }

  lemma {:induction false} SixteenZeros(t: HuffmanTable, block: Block, k: nat, run: nat, rest: seq<bool>)
    requires ValidTable(t) && Pending(block, k, run) && k < 64 && run > 15 && block[k] != 0
    requires Covers(t, AcItems(block, k, run))
    requires Decodes(t, block, k - (run - 16), AcItems(block, k, run - 16), rest)
    ensures Decodes(t, block, k - run, AcItems(block, k, run), rest)
  {
    assert k - (run - 16) == k - run + 16;
    NextRun(t, block, k, run, AcItems(block, k, run - 16), rest);
  }

  lemma {:induction false} Coefficient(t: HuffmanTable, block: Block, k: nat, run: nat, rest: seq<bool>)
    requires ValidTable(t) && Pending(block, k, run) && k < 64 && run < 16 && block[k] != 0
    requires Covers(t, AcItems(block, k, run))
    requires Decodes(t, block, k + 1 - 0, AcItems(block, k + 1, 0), rest)
    ensures Decodes(t, block, k - run, AcItems(block, k, run), rest)
  {
    assert k + 1 - 0 == k + 1;
    NextValue(t, block, k, run, AcItem(run, block[k]), AcItems(block, k + 1, 0), rest);
  }

  lemma {:induction false} NextRun(t: HuffmanTable, block: Block, k: nat, run: nat, tail: seq<Item>, rest: seq<bool>)
    requires ValidTable(t) && Pending(block, k, run) && k < 64 && run > 15 && Covers(t, [ZRL] + tail)
    requires Decodes(t, block, k - run + 16, tail, rest)
    ensures Decodes(t, block, k - run, [ZRL] + tail, rest)
  {
    FirstCovered(t, ZRL, tail);
    DecodeZrl(t, k - run, k - run + 16, ZRL, tail, rest);
    ZrlStep(t, block, k, run, tail, rest);
  }

  lemma {:induction false} NextValue(t: HuffmanTable, block: Block, k: nat, run: nat, i: Item, tail: seq<Item>,
                                     rest: seq<bool>)
    requires ValidTable(t) && Pending(block, k, run) && k < 64 && run < 16 && block[k] != 0
    requires i == AcItem(run, block[k]) && Covers(t, [i] + tail)
    requires Decodes(t, block, k + 1, tail, rest)
    ensures Decodes(t, block, k - run, [i] + tail, rest)
  {
    FirstCovered(t, i, tail);
    DecodeAcItem(t, k - run, run, k + 1, block[k], tail, rest);
    ItemStep(t, block, k, run, i, tail, rest);
  }

  lemma EndOfItems(t: HuffmanTable, block: Block, run: nat, rest: seq<bool>)
    requires ValidTable(t) && Pending(block, 64, run) && Covers(t, AcItems(block, 64, run))
    ensures Decodes(t, block, 64 - run, AcItems(block, 64, run), rest)
  {
    if run > 0 {
      FirstCovered(t, EOB, []);
      DecodeEnd(t, 64 - run, rest);
      AllZeros(block, 64 - run);
    } else {
      NothingLeft(t, block, rest);
    }
  }

  lemma NothingLeft(t: HuffmanTable, s: seq<int>, rest: seq<bool>)
    requires |s| == 64
    ensures ItemsBits(t, []) + rest == rest && s[64..] == []
  {
  }

  lemma FirstCovered(t: HuffmanTable, i: Item, tail: seq<Item>)
    requires Covers(t, [i] + tail)
    ensures i.symbol in t.values && Covers(t, tail)
  {
    var all := [i] + tail;
    assert all[0] == i;
    forall k | 0 <= k < |tail| ensures tail[k].symbol in t.values {
      assert all[k + 1] == tail[k];
    }
  }

  lemma {:induction false} ZrlStep(t: HuffmanTable, block: Block, k: nat, run: nat, tail: seq<Item>, rest: seq<bool>)
    requires Pending(block, k, run) && k < 64 && run > 15
    requires DecodeAc(t.length, t.values, k - run, ItemsBits(t, [ZRL] + tail) + rest)
          == AfterItem(15, 0, DecodeAc(t.length, t.values, k - run + 16, ItemsBits(t, tail) + rest))
    requires Decodes(t, block, k - run + 16, tail, rest)
    ensures Decodes(t, block, k - run, [ZRL] + tail, rest)
  {
    RunSplit(block, k - run, 15);
  }

  lemma {:induction false} ItemStep(t: HuffmanTable, block: Block, k: nat, run: nat, i: Item, tail: seq<Item>,
                                    rest: seq<bool>)
    requires Pending(block, k, run) && k < 64
    requires DecodeAc(t.length, t.values, k - run, ItemsBits(t, [i] + tail) + rest)
          == AfterItem(run, block[k], DecodeAc(t.length, t.values, k + 1, ItemsBits(t, tail) + rest))
    requires Decodes(t, block, k + 1, tail, rest)
    ensures Decodes(t, block, k - run, [i] + tail, rest)
  {
    RunSplit(block, k - run, run);
  }

  lemma RunSplit(s: seq<int>, k: nat, run: nat)
    requires k + run < |s| && forall m :: k <= m < k + run ==> s[m] == 0
    ensures s[k..] == Zeros(run) + [s[k + run]] + s[k + run + 1..]
  {
  }

  lemma AllZeros(s: seq<int>, k: nat)
    requires k <= |s| && forall m :: k <= m < |s| ==> s[m] == 0
    ensures s[k..] == Zeros(|s| - k)
  {
  }

  lemma DecodeEnd(t: HuffmanTable, k: nat, rest: seq<bool>)
    requires ValidTable(t) && EOB.symbol in t.values && k < 64
    ensures DecodeAc(t.length, t.values, k, ItemsBits(t, [EOB]) + rest) == Got(Zeros(64 - k), rest)
  {
    var b := EOB.symbol;
    assert ItemsBits(t, [EOB]) == SymbolBits(t, b) + BitsOf(0, 0) + [];
    assert ItemsBits(t, [EOB]) + rest == SymbolBits(t, b) + rest;
    DecodeEncodeSymbol(t, b, rest);
  }

  /** What the decoder does with an item whose run and value lie inside the block. */
  function AfterItem(run: nat, value: int, tail: Decoded<seq<int>>): Decoded<seq<int>>
  {
    match tail
    case Fail => Fail
    case Got(more, rest) => Got(Zeros(run) + [value] + more, rest)
  }

  lemma DecodeZrl(t: HuffmanTable, k: nat, next: nat, i: Item, tail: seq<Item>, rest: seq<bool>)
    requires ValidTable(t) && i == ZRL && i.symbol in t.values && next == k + 16 <= 64
    ensures DecodeAc(t.length, t.values, k, ItemsBits(t, [i] + tail) + rest)
         == AfterItem(15, 0, DecodeAc(t.length, t.values, next, ItemsBits(t, tail) + rest))
  {
    var more := ItemsBits(t, tail) + rest;
    FirstItem(t, i, tail, rest);
    assert BitsOf(i.extra, i.size) + more == more;
    DecodeEncodeSymbol(t, i.symbol, more);
    assert ReceiveExtend(0, more) == Got(0, more);
  }

  lemma FirstItem(t: HuffmanTable, i: Item, tail: seq<Item>, rest: seq<bool>)
    ensures ItemsBits(t, [i] + tail) + rest
         == SymbolBits(t, i.symbol) + (BitsOf(i.extra, i.size) + (ItemsBits(t, tail) + rest))
  {
    assert ([i] + tail)[1..] == tail;
  }

  lemma AcItemParts(run: nat, value: int16)
    requires run < 16 && value != 0 && value != -0x8000
    ensures var i := AcItem(run, value); i.symbol / 16 == run && i.symbol % 16 == i.size && 0 < i.size < 16
  {
    ExtendGetCode(value);
    SymbolDivMod(run, AcItem(run, value).size, AcItem(run, value).symbol);
  }

  lemma SymbolDivMod(run: nat, size: nat, symbol: nat)
    requires size < 16 && symbol == 16 * run + size
    ensures symbol / 16 == run && symbol % 16 == size
  {
  }

  /** One symbol with value bits behind it. */
  lemma AcStep(lengths: seq<nat>, values: seq<byte>, k: nat, bits: seq<bool>, symbol: byte, run: nat, value: int,
               rest: seq<bool>, behind: seq<bool>)
    requires IsLengths(lengths) && k + run < 64 && symbol / 16 == run && symbol % 16 > 0
    requires DecodeSymbol(lengths, values, bits) == Got(symbol, rest)
    requires ReceiveExtend(symbol % 16, rest) == Got(value, behind)
    ensures DecodeAc(lengths, values, k, bits) == AfterItem(run, value, DecodeAc(lengths, values, k + run + 1, behind))
  {
  }

  lemma DecodeItem(t: HuffmanTable, k: nat, run: nat, next: nat, i: Item, value: int, tail: seq<Item>, rest: seq<bool>)
    requires ValidTable(t) && next == k + run + 1 <= 64 && i.symbol in t.values
    requires i.symbol / 16 == run && i.symbol % 16 == i.size && 0 < i.size
    requires var more := ItemsBits(t, tail) + rest;
             ReceiveExtend(i.size, BitsOf(i.extra, i.size) + more) == Got(value, more)
    ensures DecodeAc(t.length, t.values, k, ItemsBits(t, [i] + tail) + rest)
         == AfterItem(run, value, DecodeAc(t.length, t.values, next, ItemsBits(t, tail) + rest))
  {
    var more := ItemsBits(t, tail) + rest;
    FirstItem(t, i, tail, rest);
    DecodeEncodeSymbol(t, i.symbol, BitsOf(i.extra, i.size) + more);
    AcStep(t.length, t.values, k, ItemsBits(t, [i] + tail) + rest, i.symbol, run, value,
           BitsOf(i.extra, i.size) + more, more);
  }

  lemma DecodeAcItem(t: HuffmanTable, k: nat, run: nat, next: nat, value: int16, tail: seq<Item>, rest: seq<bool>)
    requires ValidTable(t) && run < 16 && next == k + run + 1 <= 64 && value != 0 && value != -0x8000
    requires AcItem(run, value).symbol in t.values
    ensures DecodeAc(t.length, t.values, k, ItemsBits(t, [AcItem(run, value)] + tail) + rest)
         == AfterItem(run, value, DecodeAc(t.length, t.values, next, ItemsBits(t, tail) + rest))
  {
    AcItemParts(run, value);
    ReceiveExtra(value, ItemsBits(t, tail) + rest);
    DecodeItem(t, k, run, next, AcItem(run, value), value, tail, rest);
  }

  lemma Sub16Exact(a: int, b: int)
    requires -0x8000 <= a - b < 0x8000
    ensures Sub16(a, b) == a - b
  {
  }

  /** Encoding a block and decoding it gives the block back, whatever follows. */
  lemma {:induction false} DecodeEncodeBlock(dc: HuffmanTable, ac: HuffmanTable, block: Block, prediction: int,
                                             rest: seq<bool>)
    requires ValidTable(dc) && ValidTable(ac) && Codable(block)
    requires -0x8000 < block[0] - prediction < 0x8000
    requires DcItem(Sub16(block[0], prediction)).symbol in dc.values && Covers(ac, AcItems(block, 1, 0))
    ensures DecodeBlock(dc, ac, prediction, BlockBits(block, Sub16(block[0], prediction), dc, ac) + rest)
         == Got(block[..], rest)
  {
    Sub16Exact(block[0], prediction);
    var diff := Sub16(block[0], prediction);
    var tail := ItemsBits(ac, AcItems(block, 1, 0));
    ConcatAssoc(ItemBits(dc, DcItem(diff)), tail, rest);
    DecodeDcItem(dc, prediction, diff, tail + rest);
    DecodeAllAc(ac, block, rest);
    assert [block[0]] + block[1..] == block[..];
  }

  lemma {:induction false} DecodeAllAc(t: HuffmanTable, block: Block, rest: seq<bool>)
    requires ValidTable(t) && Codable(block) && Covers(t, AcItems(block, 1, 0))
    ensures DecodeAc(t.length, t.values, 1, ItemsBits(t, AcItems(block, 1, 0)) + rest) == Got(block[1..], rest)
  {
    DecodeAcItems(t, block, 1, 0, rest);
  }
}

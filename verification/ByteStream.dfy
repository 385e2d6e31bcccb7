/** Bytes of an entropy-coded segment: packing of bits, and stuffing (section F.1.2.3 of ITU-T T.81). */
module ByteStream {
  import opened Bits
  import opened Sequences

  /** The bits of a byte string, each byte most significant bit first. */
  function BitsOfBytes(bs: seq<byte>): (s: seq<bool>)
    ensures |s| == 8 * |bs|
  {
    if bs == [] then [] else BitsOf(bs[0], 8) + BitsOfBytes(bs[1..])
  }

  lemma {:induction false} BitsOfBytesConcat(a: seq<byte>, b: seq<byte>)
    ensures BitsOfBytes(a + b) == BitsOfBytes(a) + BitsOfBytes(b)
  {
    if a == [] {
      assert a + b == b;
    } else {
      BitsOfBytesConcat(a[1..], b);
      assert (a + b)[1..] == a[1..] + b;
    }
  }

  /** A zero byte goes after every 0xFF, and nowhere else. */
  function Stuff(bs: seq<byte>): seq<byte>
  {
    if bs == [] then [] else StuffByte(bs[0]) + Stuff(bs[1..])
  }

  function StuffByte(b: byte): seq<byte>
  {
    if b == 0xFF then [0xFF, 0x00] else [b]
  }

  lemma {:induction false} StuffConcat(a: seq<byte>, b: seq<byte>)
    ensures Stuff(a + b) == Stuff(a) + Stuff(b)
  {
    if a == [] {
      assert a + b == b;
    } else {
      StuffConcat(a[1..], b);
      assert (a + b)[1..] == a[1..] + b;
      ConcatAssoc(StuffByte(a[0]), Stuff(a[1..]), Stuff(b));
    }
  }

  lemma {:induction false} StuffNothing(bs: seq<byte>)
    requires 0xFF !in bs
    ensures Stuff(bs) == bs
  {
    if bs != [] {
      StuffNothing(bs[1..]);
    }
  }

  datatype Segment = Segment(data: seq<byte>, rest: seq<byte>)

  /** What a decoder does with an entropy-coded segment: read up to the first 0xFF that is not
      followed by 0x00 (that is a marker, or the end of the data), dropping the stuffed zeros. */
  function Unstuff(s: seq<byte>): Segment
  {
    if s == [] || (s[0] == 0xFF && (|s| == 1 || s[1] != 0x00)) then Segment([], s)
    else
      var tail := Unstuff(if s[0] == 0xFF then s[2..] else s[1..]);
      Segment([s[0]] + tail.data, tail.rest)
  }

  /** At the start of a marker, or at the end of the data. */
  predicate AtMarker(s: seq<byte>)
  {
    s == [] || (|s| >= 2 && s[0] == 0xFF && s[1] != 0x00)
  }

  /** Unstuffing inverts stuffing and stops exactly at the marker that follows. */
  lemma {:induction false} UnstuffStuff(bs: seq<byte>, after: seq<byte>)
    requires AtMarker(after)
    ensures Unstuff(Stuff(bs) + after) == Segment(bs, after)
  {
    if bs == [] {
      assert Stuff(bs) + after == after;
    } else {
      UnstuffStuff(bs[1..], after);
      ConcatAssoc(StuffByte(bs[0]), Stuff(bs[1..]), after);
      UnstuffByte(bs[0], Stuff(bs[1..]) + after);
      assert bs == [bs[0]] + bs[1..];
    }
  }

  lemma UnstuffByte(b: byte, s: seq<byte>)
    ensures Unstuff(StuffByte(b) + s) == Segment([b] + Unstuff(s).data, Unstuff(s).rest)
  {
    var all := StuffByte(b) + s;
    assert all[|StuffByte(b)|..] == s;
  }

  // ---------------------------------------------------------------- the stuffing fast path

  /** A word of m bytes, all of them equal to b. */
  function Repeat(b: byte, m: nat): nat
  {
    if m == 0 then 0 else b + 256 * Repeat(b, m - 1)
  }

  /** Some byte of the m-byte word v is 0xFF. */
  predicate HasFF(v: nat, m: nat)
  {
    m > 0 && (v % 256 == 0xFF || HasFF(v / 256, m - 1))
  }

  /** The test of the word-wide fast path, for words of m bytes:
      v & 0x80..80 & !(v + 0x01..01), the addition wrapping. */
  function CarryTest(v: nat, m: nat): nat
    requires v < Pow256(m)
  {
    CarryMask(v, Repeat(0x80, m), Repeat(0x01, m), Pow256(m))
  }

  function CarryMask(v: nat, mask: nat, ones: nat, size: nat): nat
    requires size > 0
  {
    BitAnd(BitAnd(v, mask), size - 1 - (v + ones) % size)
  }

  lemma BitAndBytes(a: byte, b: byte, x: nat, y: nat)
    ensures BitAnd(256 * x + a, 256 * y + b) == 256 * BitAnd(x, y) + BitAnd(a, b)
  {
    Pow2Values();
    BitAndSplit(a, b, 8, x, y, x * Pow2(8), y * Pow2(8), BitAnd(x, y) * Pow2(8));
  }

  lemma BitAndHighBit(a: byte)
    ensures BitAnd(a, 0x80) == (if a >= 128 then 128 else 0)
  {
    var p := Pow2(7);
    assert p == 128;
    assert BitAnd(a / 128, 1) == a / 128;
    assert BitAnd(a % 128, 0) == 0;
    BitAndSplit(a % 128, 0, 7, a / 128, 1, (a / 128) * 128, 128, (a / 128) * 128);
  }

  lemma BitAndHighBitOf(h: nat, b: byte)
    requires h == 0 || h == 128
    ensures BitAnd(h, b) == (if h == 128 && b >= 128 then 128 else 0)
  {
    if h == 128 {
      assert Pow2(7) == 128;
      assert BitAnd(1, b / 128) == b / 128;
      assert BitAnd(0, b % 128) == 0;
      BitAndSplit(0, b % 128, 7, 1, b / 128, 128, (b / 128) * 128, (b / 128) * 128);
    }
  }

  lemma WrapByte(t: nat, c: nat, q: nat)
    requires q > 0 && c < 256
    ensures (256 * t + c) % (256 * q) == 256 * (t % q) + c
  {
    var d, r := Quotient(t, q);
    MulAssoc(d, 256, q);
    assert d * (256 * q) == 256 * (d * q);
    DivModUnique(256 * t + c, 256 * q, d, 256 * r + c);
  }

  lemma {:induction false} Repeat80(m: nat)
    ensures Repeat(0x01, m) < Pow256(m)
  {
    if m > 0 {
      Repeat80(m - 1);
    }
  }

  /** One byte of the test: the carry out of a byte other than 0xFF is zero, so the bytes above it
      go through the test alone; a 0xFF byte wraps to zero and shows in its own top bit. */
  lemma CarryMaskStep(a: byte, x: nat, r: nat, o: nat, q: nat)
    requires q > 0
    ensures a == 255 ==> CarryMask(256 * x + a, 256 * r + 0x80, 256 * o + 1, 256 * q) != 0
    ensures a != 255 ==>
              CarryMask(256 * x + a, 256 * r + 0x80, 256 * o + 1, 256 * q) == 256 * CarryMask(x, r, o, q)
  {
    var c, carry := (a + 1) % 256, (a + 1) / 256;
    var t := x + o + carry;
    WrapByte(t, c, q);
    var y := LastByteNot(t, c, q);
    CarryTestParts(a, c, BitAnd(x, r), x, r, y);
    assert (256 * x + a) + (256 * o + 1) == 256 * t + c;
  }

  lemma LastByteNot(t: nat, c: byte, q: nat) returns (y: nat)
    requires q > 0
    ensures y == q - 1 - t % q
    ensures 256 * q - 1 - (256 * (t % q) + c) == 256 * y + (255 - c)
  {
    y := q - 1 - t % q;
  }

  lemma CarryTestParts(a: byte, c: byte, z: nat, x: nat, r: nat, y: nat)
    requires c == (a + 1) % 256 && z == BitAnd(x, r)
    ensures BitAnd(BitAnd(256 * x + a, 256 * r + 0x80), 256 * y + (255 - c))
         == 256 * BitAnd(z, y) + (if a == 255 then 128 else 0)
  {
    HighBitLost(a, c);
    TwoMasks(a, 0x80, 255 - c, x, r, y);
  }

  lemma HighBitLost(a: byte, c: byte)
    requires c == (a + 1) % 256
    ensures BitAnd(a, 0x80) < 256
    ensures BitAnd(BitAnd(a, 0x80), 255 - c) == if a == 255 then 128 else 0
  {
    BitAndHighBit(a);
    HighBitAnd(a, c, if a >= 128 then 128 else 0);
  }

  lemma HighBitAnd(a: byte, c: byte, h: nat)
    requires c == (a + 1) % 256 && h == if a >= 128 then 128 else 0
    ensures BitAnd(h, 255 - c) == if a == 255 then 128 else 0
  {
    BitAndHighBitOf(h, 255 - c);
    HighBitOfSum(a, c);
  }

  lemma HighBitOfSum(a: byte, c: byte)
    requires c == (a + 1) % 256
    ensures a >= 128 && 255 - c >= 128 <==> a == 255
  {
  }

  lemma TwoMasks(a: byte, b: byte, c: byte, x: nat, r: nat, y: nat)
    requires BitAnd(a, b) < 256
    ensures BitAnd(BitAnd(256 * x + a, 256 * r + b), 256 * y + c)
         == 256 * BitAnd(BitAnd(x, r), y) + BitAnd(BitAnd(a, b), c)
  {
    BitAndBytes(a, b, x, r);
    BitAndBytes(BitAnd(a, b), c, BitAnd(x, r), y);
  }

  /** The carry-add test is nonzero exactly when some byte of the word is 0xFF. */
  lemma {:induction false} CarryTestFindsFF(v: nat, m: nat)
    requires v < Pow256(m)
    ensures CarryTest(v, m) != 0 <==> HasFF(v, m)
  {
    if m == 0 {
    } else {
      var a, x := v % 256, v / 256;
      CarryMaskStep(a, x, Repeat(0x80, m - 1), Repeat(0x01, m - 1), Pow256(m - 1));
      if a != 255 {
        CarryTestFindsFF(x, m - 1);
      }
    }
  }

  /** A word without a 0xFF byte goes out as it is. */
  lemma FastPath(bs: seq<byte>, v: nat)
    requires v < WORD
    requires BitAnd(BitAnd(v, 0x8080808080808080), WORD - 1 - (v + 0x0101010101010101) % WORD) == 0
    ensures Stuff(bs + WordBytes(v, 8)) == Stuff(bs) + WordBytes(v, 8)
    ensures BitsOfBytes(bs + WordBytes(v, 8)) == BitsOfBytes(bs) + BitsOf(v, 64)
  {
    CarryTestConstants();
    CleanBytes(bs, v, 8);
  }

  lemma CleanBytes(bs: seq<byte>, v: nat, m: nat)
    requires v < Pow256(m) && CarryTest(v, m) == 0
    ensures Stuff(bs + WordBytes(v, m)) == Stuff(bs) + WordBytes(v, m)
    ensures BitsOfBytes(bs + WordBytes(v, m)) == BitsOfBytes(bs) + BitsOf(v, 8 * m)
  {
    CarryTestFindsFF(v, m);
    WordBytesFF(v, m);
    StuffNothing(WordBytes(v, m));
    StuffConcat(bs, WordBytes(v, m));
    WordBytesBits(v, m);
    BitsOfBytesConcat(bs, WordBytes(v, m));
  }

  lemma CarryTestConstants()
    ensures Repeat(0x80, 8) == 0x8080808080808080
    ensures Repeat(0x01, 8) == 0x0101010101010101
    ensures Pow256(8) == WORD
  {
    assert Pow256(4) == 0x1_0000_0000;
    assert Repeat(0x80, 4) == 0x80808080;
    assert Repeat(0x01, 4) == 0x01010101;
  }

  // ---------------------------------------------------------------- words as bytes

  /** The low m bytes of a word, most significant first. */
  function WordBytes(v: nat, m: nat): (bs: seq<byte>)
    ensures |bs| == m
  {
    if m == 0 then [] else WordBytes(v / 256, m - 1) + [v % 256]
  }

  lemma {:induction false} WordBytesFF(v: nat, m: nat)
    ensures 0xFF in WordBytes(v, m) <==> HasFF(v, m)
  {
    if m > 0 {
      WordBytesFF(v / 256, m - 1);
    }
  }

  lemma {:induction false} WordBytesBits(v: nat, m: nat)
    ensures BitsOfBytes(WordBytes(v, m)) == BitsOf(v, 8 * m)
  {
    if m > 0 {
      WordBytesBits(v / 256, m - 1);
      BitsOfBytesConcat(WordBytes(v / 256, m - 1), [v % 256]);
      BitsOfShr(v, 8 * (m - 1), 8);
      assert Shr(v, 8) == v / 256 by { Shr8(v); }
      LowByte(v);
      assert BitsOfBytes([v % 256]) == BitsOf(v % 256, 8) + [];
    }
  }

  lemma Shr8(v: nat)
    ensures Shr(v, 8) == v / 256
  {
    assert Shr(v, 8) == Shr(v / 2 / 2, 6);
    assert Shr(v / 4, 6) == Shr(v / 4 / 2 / 2, 4);
    assert Shr(v / 16, 4) == Shr(v / 16 / 2 / 2, 2);
    assert Shr(v / 64, 2) == Shr(v / 64 / 2 / 2, 0);
  }

  lemma LowByte(v: nat)
    ensures BitsOf(v % 256, 8) == BitsOf(v, 8)
  {
    Pow2Values();
    BitsOfMod(v, 8);
  }

  /** The byte on top of the low n bits of v. */
  function TopByte(v: nat, n: nat): nat
    requires n >= 8
  {
    BitAnd(Shr(v, n - 8), 0xFF)
  }

  lemma TopByteBits(v: nat, n: nat)
    requires n >= 8
    ensures TopByte(v, n) < 256
    ensures BitsOf(v, n) == BitsOf(TopByte(v, n), 8) + BitsOf(v, n - 8)
  {
    Pow2Values();
    BitAndMask(Shr(v, n - 8), 8);
    LowByte(Shr(v, n - 8));
    BitsOfShr(v, 8, n - 8);
  }

  /** Moving the top byte of a word behind a byte string keeps the bits in order. */
  lemma MoveTopByte(bs: seq<byte>, v: nat, n: nat)
    requires n >= 8
    ensures TopByte(v, n) < 256
    ensures BitsOfBytes(bs + [TopByte(v, n)]) + BitsOf(v, n - 8) == BitsOfBytes(bs) + BitsOf(v, n)
  {
    TopByteBits(v, n);
    var b := TopByte(v, n);
    BitsOfBytesConcat(bs, [b]);
    SingleByte(b);
    ConcatAssoc(BitsOfBytes(bs), BitsOf(b, 8), BitsOf(v, n - 8));
  }

  lemma StuffAppend(sink: seq<byte>, bs: seq<byte>, b: byte)
    ensures sink + Stuff(bs + [b]) == sink + Stuff(bs) + StuffByte(b)
  {
    StuffConcat(bs, [b]);
    SingleByte(b);
    ConcatAssoc(sink, Stuff(bs), StuffByte(b));
  }

  lemma SingleByte(b: byte)
    ensures BitsOfBytes([b]) == BitsOf(b, 8)
    ensures Stuff([b]) == StuffByte(b)
  {
    assert BitsOfBytes([b]) == BitsOf(b, 8) + [];
    assert Stuff([b]) == StuffByte(b) + [];
  }

  // ---------------------------------------------------------------- packing bits into bytes

  /** The bytes of a bit string of whole bytes. */
  function PackBytes(s: seq<bool>): (bs: seq<byte>)
    requires |s| % 8 == 0
    ensures 8 * |bs| == |s|
  {
    if s == [] then []
    else
      ValueOfBound(s[..8]);
      Pow2Values();
      [ValueOf(s[..8])] + PackBytes(s[8..])
  }

  lemma PackFirst(w: seq<bool>, s: seq<bool>)
    requires |w| == 8 && |s| % 8 == 0
    ensures ValueOf(w) < 256 && PackBytes(w + s) == [ValueOf(w)] + PackBytes(s)
  {
    ValueOfBound(w);
    Pow2Values();
    var all := w + s;
    assert all[..8] == w && all[8..] == s;
  }

  lemma ByteValue(b: byte, n: nat)
    requires n == 8
    ensures ValueOf(BitsOf(b, n)) == b
  {
    ValueOfBitsOf(b, n);
    Pow2Values();
  }

  lemma PackByte(b: byte, n: nat, s: seq<bool>)
    requires n == 8 && |s| % 8 == 0
    ensures PackBytes(BitsOf(b, n) + s) == [b] + PackBytes(s)
  {
    PackFirst(BitsOf(b, n), s);
    ByteValue(b, n);
  }

  lemma {:induction false} PackBitsOfBytes(bs: seq<byte>)
    ensures PackBytes(BitsOfBytes(bs)) == bs
  {
    if bs != [] {
      PackBitsOfBytes(bs[1..]);
      PackByte(bs[0], 8, BitsOfBytes(bs[1..]));
      assert bs == [bs[0]] + bs[1..];
    }
  }

  lemma {:induction false} BitsOfPackBytes(s: seq<bool>)
    requires |s| % 8 == 0
    ensures BitsOfBytes(PackBytes(s)) == s
  {
    if s != [] {
      BitsOfPackBytes(s[8..]);
      BitsOfValueOf(s[..8]);
      var bs := PackBytes(s);
      assert bs[1..] == PackBytes(s[8..]);
      assert s == s[..8] + s[8..];
    }
  }

  function Ones(n: nat): (s: seq<bool>)
  {
    seq(n, _ => true)
  }

  /** A bit string filled up with ones to the next byte boundary. */
  function PadOnes(s: seq<bool>): (p: seq<bool>)
    ensures |p| % 8 == 0 && s <= p && |p| < |s| + 8
  {
    s + Ones((8 - |s| % 8) % 8)
  }

  /** The bytes of an entropy-coded segment holding the bit string s. */
  function EntropyBytes(s: seq<bool>): seq<byte>
  {
    Stuff(PackBytes(PadOnes(s)))
  }

  /** The bit string a decoder gets back from an entropy-coded segment: the one that was written,
      followed by less than a byte of ones. */
  lemma EntropyBytesDecode(s: seq<bool>, after: seq<byte>)
    requires AtMarker(after)
    ensures Unstuff(EntropyBytes(s) + after).rest == after
    ensures BitsOfBytes(Unstuff(EntropyBytes(s) + after).data) == s + Ones((8 - |s| % 8) % 8)
  {
    UnstuffStuff(PackBytes(PadOnes(s)), after);
    BitsOfPackBytes(PadOnes(s));
  }
}

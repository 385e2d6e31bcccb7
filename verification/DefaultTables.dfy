/** The default Huffman tables (section K.3 of T.81), and the symbols they have codes for. */
module DefaultTables {
  import opened Bits
  import opened HuffmanCode
  import opened Sequences

  const DEFAULT_DC_VALUES: seq<byte> := [0, 1, 2, 3, 4, 5, 6, 7, 8, 9, 10, 11]

  const DEFAULT_LUMA_DC_CODE_LENGTHS: Lengths := [0, 1, 5, 1] + [1, 1, 1, 1] + [1, 0, 0, 0] + [0, 0, 0, 0]
  const DEFAULT_CHROMA_DC_CODE_LENGTHS: Lengths := [0, 3, 1, 1] + [1, 1, 1, 1] + [1, 1, 1, 0] + [0, 0, 0, 0]
  const DEFAULT_LUMA_AC_CODE_LENGTHS: Lengths := [0, 2, 1, 3] + [3, 2, 4, 3] + [5, 5, 4, 4] + [0, 0, 1, 125]
  const DEFAULT_CHROMA_AC_CODE_LENGTHS: Lengths := [0, 2, 1, 2] + [4, 4, 3, 4] + [7, 5, 4, 4] + [0, 1, 2, 119]

  const DEFAULT_LUMA_AC_VALUES: seq<byte> :=
    DEFAULT_LUMA_AC_0 + DEFAULT_LUMA_AC_1 + DEFAULT_LUMA_AC_2 + DEFAULT_LUMA_AC_3 + DEFAULT_LUMA_AC_4
    + DEFAULT_LUMA_AC_5 + DEFAULT_LUMA_AC_6 + DEFAULT_LUMA_AC_7 + DEFAULT_LUMA_AC_8
    + DEFAULT_LUMA_AC_9 + DEFAULT_LUMA_AC_10

  const DEFAULT_LUMA_AC_0: seq<byte> :=
    [0x01, 0x02, 0x03, 0x00, 0x04, 0x11, 0x05, 0x12, 0x21, 0x31, 0x41, 0x06, 0x13, 0x51, 0x61, 0x07]
  const DEFAULT_LUMA_AC_1: seq<byte> :=
    [0x22, 0x71, 0x14, 0x32, 0x81, 0x91, 0xA1, 0x08, 0x23, 0x42, 0xB1, 0xC1, 0x15, 0x52, 0xD1, 0xF0]
  const DEFAULT_LUMA_AC_2: seq<byte> :=
    [0x24, 0x33, 0x62, 0x72, 0x82, 0x09, 0x0A, 0x16, 0x17, 0x18, 0x19, 0x1A, 0x25, 0x26, 0x27, 0x28]
  const DEFAULT_LUMA_AC_3: seq<byte> :=
    [0x29, 0x2A, 0x34, 0x35, 0x36, 0x37, 0x38, 0x39, 0x3A, 0x43, 0x44, 0x45, 0x46, 0x47, 0x48, 0x49]
  const DEFAULT_LUMA_AC_4: seq<byte> :=
    [0x4A, 0x53, 0x54, 0x55, 0x56, 0x57, 0x58, 0x59, 0x5A, 0x63, 0x64, 0x65, 0x66, 0x67, 0x68, 0x69]
  const DEFAULT_LUMA_AC_5: seq<byte> :=
    [0x6A, 0x73, 0x74, 0x75, 0x76, 0x77, 0x78, 0x79, 0x7A, 0x83, 0x84, 0x85, 0x86, 0x87, 0x88, 0x89]
  const DEFAULT_LUMA_AC_6: seq<byte> :=
    [0x8A, 0x92, 0x93, 0x94, 0x95, 0x96, 0x97, 0x98, 0x99, 0x9A, 0xA2, 0xA3, 0xA4, 0xA5, 0xA6, 0xA7]
  const DEFAULT_LUMA_AC_7: seq<byte> :=
    [0xA8, 0xA9, 0xAA, 0xB2, 0xB3, 0xB4, 0xB5, 0xB6, 0xB7, 0xB8, 0xB9, 0xBA, 0xC2, 0xC3, 0xC4, 0xC5]
  const DEFAULT_LUMA_AC_8: seq<byte> :=
    [0xC6, 0xC7, 0xC8, 0xC9, 0xCA, 0xD2, 0xD3, 0xD4, 0xD5, 0xD6, 0xD7, 0xD8, 0xD9, 0xDA, 0xE1, 0xE2]
  const DEFAULT_LUMA_AC_9: seq<byte> :=
    [0xE3, 0xE4, 0xE5, 0xE6, 0xE7, 0xE8, 0xE9, 0xEA, 0xF1, 0xF2, 0xF3, 0xF4, 0xF5, 0xF6, 0xF7, 0xF8]
  const DEFAULT_LUMA_AC_10: seq<byte> :=
    [0xF9, 0xFA]

  const DEFAULT_CHROMA_AC_VALUES: seq<byte> :=
    DEFAULT_CHROMA_AC_0 + DEFAULT_CHROMA_AC_1 + DEFAULT_CHROMA_AC_2 + DEFAULT_CHROMA_AC_3 + DEFAULT_CHROMA_AC_4
    + DEFAULT_CHROMA_AC_5 + DEFAULT_CHROMA_AC_6 + DEFAULT_CHROMA_AC_7 + DEFAULT_CHROMA_AC_8
    + DEFAULT_CHROMA_AC_9 + DEFAULT_CHROMA_AC_10

  const DEFAULT_CHROMA_AC_0: seq<byte> :=
    [0x00, 0x01, 0x02, 0x03, 0x11, 0x04, 0x05, 0x21, 0x31, 0x06, 0x12, 0x41, 0x51, 0x07, 0x61, 0x71]
  const DEFAULT_CHROMA_AC_1: seq<byte> :=
    [0x13, 0x22, 0x32, 0x81, 0x08, 0x14, 0x42, 0x91, 0xA1, 0xB1, 0xC1, 0x09, 0x23, 0x33, 0x52, 0xF0]
  const DEFAULT_CHROMA_AC_2: seq<byte> :=
    [0x15, 0x62, 0x72, 0xD1, 0x0A, 0x16, 0x24, 0x34, 0xE1, 0x25, 0xF1, 0x17, 0x18, 0x19, 0x1A, 0x26]
  const DEFAULT_CHROMA_AC_3: seq<byte> :=
    [0x27, 0x28, 0x29, 0x2A, 0x35, 0x36, 0x37, 0x38, 0x39, 0x3A, 0x43, 0x44, 0x45, 0x46, 0x47, 0x48]
  const DEFAULT_CHROMA_AC_4: seq<byte> :=
    [0x49, 0x4A, 0x53, 0x54, 0x55, 0x56, 0x57, 0x58, 0x59, 0x5A, 0x63, 0x64, 0x65, 0x66, 0x67, 0x68]
  const DEFAULT_CHROMA_AC_5: seq<byte> :=
    [0x69, 0x6A, 0x73, 0x74, 0x75, 0x76, 0x77, 0x78, 0x79, 0x7A, 0x82, 0x83, 0x84, 0x85, 0x86, 0x87]
  const DEFAULT_CHROMA_AC_6: seq<byte> :=
    [0x88, 0x89, 0x8A, 0x92, 0x93, 0x94, 0x95, 0x96, 0x97, 0x98, 0x99, 0x9A, 0xA2, 0xA3, 0xA4, 0xA5]
  const DEFAULT_CHROMA_AC_7: seq<byte> :=
    [0xA6, 0xA7, 0xA8, 0xA9, 0xAA, 0xB2, 0xB3, 0xB4, 0xB5, 0xB6, 0xB7, 0xB8, 0xB9, 0xBA, 0xC2, 0xC3]
  const DEFAULT_CHROMA_AC_8: seq<byte> :=
    [0xC4, 0xC5, 0xC6, 0xC7, 0xC8, 0xC9, 0xCA, 0xD2, 0xD3, 0xD4, 0xD5, 0xD6, 0xD7, 0xD8, 0xD9, 0xDA]
  const DEFAULT_CHROMA_AC_9: seq<byte> :=
    [0xE2, 0xE3, 0xE4, 0xE5, 0xE6, 0xE7, 0xE8, 0xE9, 0xEA, 0xF2, 0xF3, 0xF4, 0xF5, 0xF6, 0xF7, 0xF8]
  const DEFAULT_CHROMA_AC_10: seq<byte> :=
    [0xF9, 0xFA]
  // ---------------------------------------------------------------- counts of the codes

  lemma FourLengths(lengths: seq<nat>, n: nat, m: nat, a: nat, b: nat, c: nat, d: nat)
    requires m == n + 4 <= |lengths| && lengths[n..m] == [a, b, c, d]
    ensures Count(lengths, m) == Count(lengths, n) + a + b + c + d
    ensures Taken(lengths, m) == 16 * Taken(lengths, n) + 8 * a + 4 * b + 2 * c + d
  {
    var s := lengths[n..m];
    assert s[0] == a && s[1] == b && s[2] == c && s[3] == d;
    assert Count(lengths, n + 2) == Count(lengths, n) + lengths[n] + lengths[n + 1];
    assert Taken(lengths, n + 2) == 4 * Taken(lengths, n) + 2 * lengths[n] + lengths[n + 1];
  }

  lemma LumaDcLengths(lengths: Lengths, n: nat)
    requires lengths == DEFAULT_LUMA_DC_CODE_LENGTHS && n == 16
    ensures Count(lengths, n) == 12 && Taken(lengths, n) < 0x1_0000
  {
    FourLengths(lengths, 0, n - 12, 0, 1, 5, 1);
    FourLengths(lengths, n - 12, n - 8, 1, 1, 1, 1);
    FourLengths(lengths, n - 8, n - 4, 1, 0, 0, 0);
    FourLengths(lengths, n - 4, n, 0, 0, 0, 0);
  }

  lemma ChromaDcLengths(lengths: Lengths, n: nat)
    requires lengths == DEFAULT_CHROMA_DC_CODE_LENGTHS && n == 16
    ensures Count(lengths, n) == 12 && Taken(lengths, n) < 0x1_0000
  {
    FourLengths(lengths, 0, n - 12, 0, 3, 1, 1);
    FourLengths(lengths, n - 12, n - 8, 1, 1, 1, 1);
    FourLengths(lengths, n - 8, n - 4, 1, 1, 1, 0);
    FourLengths(lengths, n - 4, n, 0, 0, 0, 0);
  }

  /** The Kraft sum is 65535/65536: only the code of all ones is left over. */
  lemma LumaAcLengths(lengths: Lengths, n: nat)
    requires lengths == DEFAULT_LUMA_AC_CODE_LENGTHS && n == 16
    ensures Count(lengths, n) == 162 && Taken(lengths, n) == 0xFFFF
  {
    FourLengths(lengths, 0, n - 12, 0, 2, 1, 3);
    FourLengths(lengths, n - 12, n - 8, 3, 2, 4, 3);
    FourLengths(lengths, n - 8, n - 4, 5, 5, 4, 4);
    FourLengths(lengths, n - 4, n, 0, 0, 1, 125);
  }

  lemma ChromaAcLengths(lengths: Lengths, n: nat)
    requires lengths == DEFAULT_CHROMA_AC_CODE_LENGTHS && n == 16
    ensures Count(lengths, n) == 162 && Taken(lengths, n) == 0xFFFF
  {
    FourLengths(lengths, 0, n - 12, 0, 2, 1, 2);
    FourLengths(lengths, n - 12, n - 8, 4, 4, 3, 4);
    FourLengths(lengths, n - 8, n - 4, 7, 5, 4, 4);
    FourLengths(lengths, n - 4, n, 0, 1, 2, 119);
  }

  // ---------------------------------------------------------------- the symbols

  /** What the typical AC tables have codes for: sizes 1 to 10 behind every run, a run of sixteen and
      the end of a block. */
  predicate TypicalAc(symbol: byte)
  {
    symbol == 0x00 || symbol == 0xF0 || 1 <= symbol % 16 <= 10
  }

  /** Sizes 1 to 10 behind the runs below n. */
  ghost function SizesBehind(n: nat): set<byte>
    requires n <= 16
  {
    set v: byte | v < 16 * n && 1 <= v % 16 <= 10
  }

  predicate InRun(v: byte, r: nat)
  {
    r < v <= r + 10
  }

  ghost function OneRun(r: nat): set<byte>
  {
    set v: byte | InRun(v, r)
  }

  lemma TenNumbers(r: nat)
    requires r + 10 < 256
    ensures |OneRun(r)| == 10
  {
    assert OneRun(r) == {r + 1, r + 2, r + 3, r + 4, r + 5, r + 6, r + 7, r + 8, r + 9, r + 10};
  }

  lemma NextRun(n: nat, v: byte)
    requires n < 16
    ensures v in SizesBehind(n + 1) <==> v in SizesBehind(n) || v in OneRun(16 * n)
    ensures !(v in SizesBehind(n) && v in OneRun(16 * n))
  {
  }

  lemma {:induction false} SizesNumber(n: nat)
    requires n <= 16
    ensures |SizesBehind(n)| == 10 * n
  {
    if n == 0 {
      assert SizesBehind(0) == {};
    } else {
      SizesNumber(n - 1);
      TenNumbers(16 * (n - 1));
      forall v: byte ensures v in SizesBehind(n) <==> v in SizesBehind(n - 1) || v in OneRun(16 * (n - 1)) {
        NextRun(n - 1, v);
      }
      assert SizesBehind(n) == SizesBehind(n - 1) + OneRun(16 * (n - 1));
      assert SizesBehind(n - 1) !! OneRun(16 * (n - 1));
    }
  }

  ghost function TypicalSymbols(): set<byte>
  {
    set v: byte | TypicalAc(v)
  }

  lemma TypicalNumber()
    ensures |TypicalSymbols()| == 162
  {
    SizesNumber(16);
    var two: set<byte> := {0x00, 0xF0};
    assert TypicalSymbols() == SizesBehind(16) + two;
    assert SizesBehind(16) !! two;
  }

  /** 162 values that include every typical symbol are those symbols, each once. */
  lemma TypicalValues(values: seq<byte>)
    requires |values| == 162 && forall v: byte :: TypicalAc(v) ==> v in values
    ensures Distinct(values) && forall v: byte :: v in values <==> TypicalAc(v)
  {
    TypicalNumber();
    HoldsEach(values, TypicalSymbols());
  }

  lemma LumaAcHolds(v: byte)
    requires TypicalAc(v)
    ensures v in DEFAULT_LUMA_AC_VALUES
  {
  }

  lemma ChromaAcHolds(v: byte)
    requires TypicalAc(v)
    ensures v in DEFAULT_CHROMA_AC_VALUES
  {
  }

  /** Both default AC tables are valid and have codes for exactly the typical symbols. */
  lemma DefaultAcTables()
    ensures ValidSpec(DEFAULT_LUMA_AC_CODE_LENGTHS, DEFAULT_LUMA_AC_VALUES)
    ensures ValidSpec(DEFAULT_CHROMA_AC_CODE_LENGTHS, DEFAULT_CHROMA_AC_VALUES)
    ensures forall v: byte :: v in DEFAULT_LUMA_AC_VALUES <==> TypicalAc(v)
    ensures forall v: byte :: v in DEFAULT_CHROMA_AC_VALUES <==> TypicalAc(v)
  {
    LumaAcLengths(DEFAULT_LUMA_AC_CODE_LENGTHS, 16);
    ChromaAcLengths(DEFAULT_CHROMA_AC_CODE_LENGTHS, 16);
    forall v: byte | TypicalAc(v) ensures v in DEFAULT_LUMA_AC_VALUES && v in DEFAULT_CHROMA_AC_VALUES {
      LumaAcHolds(v);
      ChromaAcHolds(v);
    }
    TypicalValues(DEFAULT_LUMA_AC_VALUES);
    TypicalValues(DEFAULT_CHROMA_AC_VALUES);
  }

  /** Both default DC tables are valid and have codes for exactly the categories up to 11. */
  lemma DefaultDcTables()
    ensures ValidSpec(DEFAULT_LUMA_DC_CODE_LENGTHS, DEFAULT_DC_VALUES)
    ensures ValidSpec(DEFAULT_CHROMA_DC_CODE_LENGTHS, DEFAULT_DC_VALUES)
    ensures forall v: byte :: v in DEFAULT_DC_VALUES <==> v <= 11
  {
    LumaDcLengths(DEFAULT_LUMA_DC_CODE_LENGTHS, 16);
    ChromaDcLengths(DEFAULT_CHROMA_DC_CODE_LENGTHS, 16);
    forall v: byte ensures v in DEFAULT_DC_VALUES <==> v <= 11 {
      if v <= 11 {
        assert DEFAULT_DC_VALUES[v] == v;
      }
    }
  }
}

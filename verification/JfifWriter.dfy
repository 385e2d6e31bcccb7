/** The bit-level writer: a 64-bit word collects bits, and full words go to the sink byte-stuffed. */
module JfifWriting {
  import opened Bits
  import opened ByteStream
  import opened EntropyCoding
  import opened HuffmanCode
  import opened Sequences

  class JfifWriter {
    var out: seq<byte>       // the sink
    var bitBuffer: nat       // a 64-bit word; only its low 64 - freeBits bits are pending
    var freeBits: int

    ghost var start: seq<byte>    // the sink when the current segment began
    ghost var flushed: seq<byte>  // whole bytes of the segment that have reached the sink, unstuffed
    ghost var written: seq<bool>  // every bit written since the segment began

    /** The sink holds the flushed bytes, stuffed. */
    ghost predicate Sound()
      reads this
    {
      && bitBuffer < WORD
      && 0 <= freeBits <= 64
      && out == start + Stuff(flushed)
    }

    ghost predicate Valid()
      reads this
    {
      && Sound()
      && written == BitsOfBytes(flushed) + BitsOf(bitBuffer, 64 - freeBits)
    }

    constructor ()
      ensures Valid() && start == out == [] && written == []
    {
      out, bitBuffer, freeBits := [], 0, 64;
      start, flushed, written := [], [], [];
    }

    /** From here on the ghost fields are about a new segment. */
    ghost method StartSegment()
      requires Sound()
      modifies this`start, this`flushed, this`written
      ensures Valid() && start == out
      ensures written == BitsOf(bitBuffer, 64 - freeBits)
    {
      start, flushed, written := out, [], BitsOf(bitBuffer, 64 - freeBits);
    }

    /** Appends raw bytes (markers, headers) to the sink. */
    method Write(bytes: seq<byte>)
      requires Valid()
      modifies this
      ensures Valid() && out == start == old(out) + bytes
      ensures old(written) == [] ==> written == []
      ensures written == BitsOf(bitBuffer, 64 - freeBits)
      ensures bitBuffer == old(bitBuffer) && freeBits == old(freeBits)
    {
      out, start, flushed := out + bytes, out + bytes, [];
      StartSegment();
    }

    /** Sends one byte of the word to the sink, and a zero after it when it is 0xFF. */
    method FlushByteFromBitBuffer(free: int)
      requires Sound() && 0 <= free <= 56
      modifies this`out, this`flushed
      ensures Sound()
      ensures TopByte(bitBuffer, 64 - free) < 256
      ensures flushed == old(flushed) + [TopByte(bitBuffer, 64 - free)]
    {
      var value := BitAnd(Shr(bitBuffer, 64 - 8 - free), 0xFF);
      TopByteBits(bitBuffer, 64 - free);
      StuffAppend(start, flushed, value);
      ghost var after := out + StuffByte(value);
      out := out + [value];
      if value == 0xFF {
        out := out + [0x00];
      }
      assert out == after;
      flushed := flushed + [value];
    }

    /** The slow path: the bytes of the word one by one. */
    method WriteEveryByte()
      requires Sound()
      modifies this`out, this`flushed
      ensures Sound()
      ensures BitsOfBytes(flushed) == old(BitsOfBytes(flushed)) + BitsOf(bitBuffer, 64)
    {
      for i := 0 to 8
        invariant Sound()
        invariant BitsOfBytes(flushed) + BitsOf(bitBuffer, 64 - 8 * i)
               == old(BitsOfBytes(flushed)) + BitsOf(bitBuffer, 64)
      {
        MoveTopByte(flushed, bitBuffer, 64 - 8 * i);
        FlushByteFromBitBuffer(i * 8);
      }
      assert BitsOf(bitBuffer, 0) == [];
    }

    /** Sends a full word to the sink: at once when none of its bytes needs stuffing. */
    method WriteBitBuffer()
      requires Sound()
      modifies this`out, this`flushed
      ensures Sound()
      ensures BitsOfBytes(flushed) == old(BitsOfBytes(flushed)) + BitsOf(bitBuffer, 64)
    {
      if BitAnd(BitAnd(bitBuffer, 0x8080808080808080),
                WORD - 1 - (bitBuffer + 0x0101010101010101) % WORD) != 0 {
        WriteEveryByte();
      } else {
        var bytes := WordBytes(bitBuffer, 8);
        FastPath(flushed, bitBuffer);
        ConcatAssoc(start, Stuff(flushed), bytes);
        out := out + bytes;
        flushed := flushed + bytes;
      }
    }

    /** Appends the low `size` bits of `value` to the segment. */
    method WriteBits(value: nat, size: nat)
      requires Valid() && size <= 32 && value < Pow2(size)
      modifies this
      ensures Valid() && start == old(start)
      ensures written == old(written) + BitsOf(value, size)
    {
      var free := freeBits - size;
      FitsWord(value, size);
      if free < 0 {
        FullWord(BitsOfBytes(flushed), bitBuffer, freeBits, value, size);
        bitBuffer := BitOr(Shl64(bitBuffer, size + free), Shr(value, -free));
        WriteBitBuffer();
        bitBuffer := value;
        freeBits := free + 64;
      } else {
        BitsOfShlOr(bitBuffer, 64 - freeBits, value, size);
        ConcatAssoc(BitsOfBytes(flushed), BitsOf(bitBuffer, 64 - freeBits), BitsOf(value, size));
        freeBits := free;
        bitBuffer := BitOr(Shl64(bitBuffer, size), value);
      }
      written := written + BitsOf(value, size);
    }

    /** Sends every whole pending byte to the sink. */
    method FlushBitBuffer()
      requires Valid()
      modifies this`out, this`flushed, this`freeBits
      ensures Valid() && 56 < freeBits
      ensures written == old(written)
    {
      while freeBits <= 56
        invariant Valid()
        invariant written == old(written)
        decreases 64 - freeBits
      {
        MoveTopByte(flushed, bitBuffer, 64 - freeBits);
        FlushByteFromBitBuffer(freeBits);
        freeBits := freeBits + 8;
      }
    }

    /** Ends the segment: the sink holds its bits, padded with ones, as stuffed bytes. */
    method FinalizeBitBuffer()
      requires Valid()
      modifies this
      ensures Valid() && written == []
      ensures out == start == old(start) + EntropyBytes(old(written))
    {
      ghost var bits := written;
      assert Pow2(7) == 128;
      WriteBits(0x7F, 7);
      FlushBitBuffer();
      PaddingBits(bits, flushed, BitsOf(bitBuffer, 64 - freeBits));
      bitBuffer := 0;
      freeBits := 64;
      start, flushed, written := out, [], [];
    }

    // -------------------------------------------------------------- Huffman coding

    method HuffmanEncode(val: byte, table: HuffmanTable)
      requires Valid() && ValidTable(table) && val in table.values
      modifies this
      ensures Valid() && start == old(start)
      ensures written == old(written) + SymbolBits(table, val)
    {
      CodeShape(table, val);
      WriteBits(table.lookup[val].code, table.lookup[val].size);
    }

    /** A symbol and `size` bits of value, written as one group of bits. */
    method HuffmanEncodeValue(size: nat, symbol: byte, value: nat, table: HuffmanTable)
      requires Valid() && ValidTable(table) && symbol in table.values
      requires size <= 16 && value < Pow2(size)
      modifies this
      ensures Valid() && start == old(start)
      ensures written == old(written) + ItemBits(table, Item(symbol, size, value))
    {
      var entry := table.lookup[symbol];
      OneGroup(table, Item(symbol, size, value));
      var temp := BitOr(Shl32(entry.code, size), value);
      WriteBits(temp, size + entry.size);
    }

    method WriteDc(value: int16, prevDc: int16, table: HuffmanTable)
      requires Valid() && ValidTable(table)
      requires DcItem(Sub16(value, prevDc)).symbol in table.values
      modifies this
      ensures Valid() && start == old(start)
      ensures written == old(written) + ItemBits(table, DcItem(Sub16(value, prevDc)))
    {
      var diff := Sub16(value, prevDc);
      ExtendGetCode(diff);
      var (size, bits) := GetCode(diff);
      HuffmanEncodeValue(size, size, bits, table);
    }

    /** A nonzero coefficient and the run of zeros before it, as one symbol. */
    method WriteCoefficient(zeroRun: nat, value: int16, table: HuffmanTable)
      requires Valid() && ValidTable(table) && zeroRun < 16 && AcItem(zeroRun, value).symbol in table.values
      modifies this
      ensures Valid() && start == old(start)
      ensures written == old(written) + ItemBits(table, AcItem(zeroRun, value))
    {
      ExtendGetCode(value);
      var (size, bits) := GetCode(value);
      SymbolParts(zeroRun, size);
      var symbol := BitOr(zeroRun * 16, size);
      HuffmanEncodeValue(size, symbol, bits, table);
    }

    method WriteAcBlock(block: Block, table: HuffmanTable)
      requires Valid() && ValidTable(table) && Covers(table, AcItems(block, 1, 0))
      modifies this
      ensures Valid() && start == old(start)
      ensures written == old(written) + ItemsBits(table, AcItems(block, 1, 0))
    {
      ghost var items := AcItems(block, 1, 0);
      ghost var done: seq<Item> := [];
      var zeroRun := 0;
      for k := 1 to 64
        invariant Valid() && start == old(start) && zeroRun < k
        invariant items == done + AcItems(block, k, zeroRun)
        invariant written == old(written) + ItemsBits(table, done)
      {
        var value := block[k];
        if value == 0 {
          zeroRun := zeroRun + 1;
        } else {
          while zeroRun > 15
            invariant Valid() && start == old(start) && 0 <= zeroRun < k
            invariant items == done + AcItems(block, k, zeroRun)
            invariant written == old(written) + ItemsBits(table, done)
          {
            NextItem(table, old(written), items, done, ZRL, AcItems(block, k, zeroRun - 16));
            HuffmanEncode(0xF0, table);
            zeroRun := zeroRun - 16;
            done := done + [ZRL];
          }
          NextItem(table, old(written), items, done, AcItem(zeroRun, value), AcItems(block, k + 1, 0));
          WriteCoefficient(zeroRun, value, table);
          done := done + [AcItem(zeroRun, value)];
          zeroRun := 0;
        }
      }
      assert AcItems(block, 64, zeroRun) == if zeroRun > 0 then [EOB] + [] else [];
      if zeroRun > 0 {
        NextItem(table, old(written), items, done, EOB, []);
        HuffmanEncode(0x00, table);
        done := done + [EOB];
      }
      assert done + [] == done;
    }

    method WriteBlock(block: Block, prevDc: int16, dcTable: HuffmanTable, acTable: HuffmanTable)
      requires Valid() && ValidTable(dcTable) && ValidTable(acTable)
      requires DcItem(Sub16(block[0], prevDc)).symbol in dcTable.values
      requires Covers(acTable, AcItems(block, 1, 0))
      modifies this
      ensures Valid() && start == old(start)
      ensures written == old(written) + BlockBits(block, Sub16(block[0], prevDc), dcTable, acTable)
    {
      WriteDc(block[0], prevDc, dcTable);
      WriteAcBlock(block, acTable);
      ConcatAssoc(old(written), ItemBits(dcTable, DcItem(Sub16(block[0], prevDc))),
                  ItemsBits(acTable, AcItems(block, 1, 0)));
    }
  }

  /** A code and the value bits behind it as one number. */
  lemma OneGroup(t: HuffmanTable, i: Item)
    requires ValidTable(t) && i.symbol in t.values && i.size <= 16 && i.extra < Pow2(i.size)
    ensures var e := t.lookup[i.symbol]; var temp := BitOr(Shl32(e.code, i.size), i.extra);
            temp < Pow2(i.size + e.size) && i.size + e.size <= 32 && BitsOf(temp, i.size + e.size) == ItemBits(t, i)
  {
    var e := t.lookup[i.symbol];
    CodeShape(t, i.symbol);
    NoOverflow(e.code, i.size);
    BitOrDisjoint(e.code, i.size, i.extra);
    BitsOfConcat(e.code, e.size, i.extra, i.size);
    Pow2Add(e.size, i.size);
    MulDiff(e.code, Pow2(e.size), Pow2(i.size));
  }

  lemma NoOverflow(code: nat, size: nat)
    requires code < 0x1_0000 && size <= 16
    ensures Shl32(code, size) == code * Pow2(size)
  {
    Pow2Values();
    Pow2Mono(size, 16);
    SmallShift(code, Pow2(size));
  }

  lemma SmallShift(code: nat, p: nat)
    requires code < 0x1_0000 && p <= 0x1_0000
    ensures (code * p) % 0x1_0000_0000 == code * p
  {
    MulBelow(code, 0xFFFF, p, 0x1_0000);
  }

  /** The next item is covered, and writing it continues the bits. */
  lemma {:induction false} NextItem(t: HuffmanTable, before: seq<bool>, items: seq<Item>, done: seq<Item>, i: Item,
                                    tail: seq<Item>)
    requires Covers(t, items) && items == done + ([i] + tail)
    ensures i.symbol in t.values && items == (done + [i]) + tail
    ensures before + ItemsBits(t, done) + ItemBits(t, i) == before + ItemsBits(t, done + [i])
    ensures i.size == 0 ==> ItemBits(t, i) == SymbolBits(t, i.symbol)
  {
    assert items[|done|] == i;
    ConcatAssoc(before, ItemsBits(t, done), ItemBits(t, i));
    ItemsBitsAppend(t, done, i);
  }

  lemma FitsWord(value: nat, size: nat)
    requires size <= 32 && value < Pow2(size)
    ensures value < WORD
  {
    Pow2Values();
    Pow2Mono(size, 32);
  }

  /** Filling the word with the top bits of a value leaves the low bits of the value pending. */
  lemma FullWord(done: seq<bool>, v: nat, free: nat, value: nat, size: nat)
    requires free < size <= 32 && value < Pow2(size)
    ensures BitOr(Shl64(v, free), Shr(value, size - free)) < WORD
    ensures done + BitsOf(BitOr(Shl64(v, free), Shr(value, size - free)), 64) + BitsOf(value, size - free)
         == done + BitsOf(v, 64 - free) + BitsOf(value, size)
  {
    var top := Shr(value, size - free);
    ShrBound(value, size - free, free);
    BitsOfShlOr(v, 64 - free, top, free);
    BitsOfShr(value, free, size - free);
  }

  lemma SevenOnes()
    ensures BitsOf(0x7F, 7) == Ones(7)
  {
  }

  /** Writing seven ones and keeping the whole bytes is padding with ones. */
  lemma PaddingBits(bits: seq<bool>, bytes: seq<byte>, rest: seq<bool>)
    requires BitsOfBytes(bytes) + rest == bits + BitsOf(0x7F, 7) && |rest| < 8
    ensures Stuff(bytes) == EntropyBytes(bits)
  {
    var whole := BitsOfBytes(bytes);
    SevenOnes();
    assert |whole| == 8 * |bytes| && |whole| + |rest| == |bits| + 7;
    assert |whole| == |PadOnes(bits)|;
    assert whole == (bits + Ones(7))[..|whole|] == PadOnes(bits);
    PackBitsOfBytes(bytes);
  }
}

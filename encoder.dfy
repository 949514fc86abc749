/**
 * The encoder state of tiny_jpeg.h (TJEState) and the procedures that work
 * on it: the staging buffer in front of the write callback, the bit writer,
 * the table and header writers, the expansion of the Huffman tables, the
 * coding of one block, the main encoding loop and the two entry points.
 *
 * The write callback is the `sink` field: every flush appends the staged
 * bytes to it, so the bytes the callback has received, in order, are
 * `sink`, and everything written so far is `Written()`.
 */
module Encoder {
  import opened Arith
  import opened BitStream
  import opened Vli
  import opened Huffman
  import opened Accumulator
  import opened EntropyCoding
  import opened JpegTables
  import opened Segments
  import opened Scan
  import opened Quality

  /** TJEI_BUFFER_SIZE: the staging buffer is flushed when it holds one byte less than this. */
  const BufferSize := 1024

  /** A Huffman table whose every entry is zero, as in a zero-initialised state. */
  function BlankTable(): (t: HuffTable)
    ensures |t.size| == 256 && |t.code| == 256
  {
    HuffTable(Zero256(), Zero256())
  }

  class State {
    /** The bytes the write callback has been handed, in order. */
    var sink: seq<uint8>
    const outputBuffer: array<uint8>
    var outputBufferCount: nat
    const qtLuma: array<uint8>
    const qtChroma: array<uint8>
    /** ht_bits and ht_vals, indexed by TJEI_LUMA_DC, TJEI_LUMA_AC, TJEI_CHROMA_DC, TJEI_CHROMA_AC. */
    var htBits: seq<seq<uint8>>
    var htVals: seq<seq<uint8>>
    /** ehuffsize and ehuffcode, with the same indexing. */
    var ehuff: seq<HuffTable>

    ghost predicate Valid()
      reads this
    {
      && outputBuffer.Length == BufferSize
      && outputBufferCount < BufferSize - 1
      && qtLuma.Length == 64 && qtChroma.Length == 64
      && outputBuffer != qtLuma && outputBuffer != qtChroma && qtLuma != qtChroma
    }

    /** Everything written so far: what the callback received, then what is still staged. */
    ghost function Written(): seq<uint8>
      reads this, outputBuffer
      requires Valid()
    {
      sink + outputBuffer[..outputBufferCount]
    }

    /** The Huffman specifications and expanded tables are not touched. */
    twostate predicate TablesKept()
      reads this
    {
      htBits == old(htBits) && htVals == old(htVals) && ehuff == old(ehuff)
    }

    /** `TJEState state = { 0 }`: an empty buffer, zero tables and nothing sent. */
    constructor ()
      ensures Valid() && fresh(outputBuffer) && fresh(qtLuma) && fresh(qtChroma)
      ensures sink == [] && outputBufferCount == 0
      ensures forall i :: 0 <= i < 64 ==> qtLuma[i] == 0 && qtChroma[i] == 0
      ensures htBits == [] && htVals == [] && ehuff == [BlankTable(), BlankTable(), BlankTable(), BlankTable()]
    {
      sink := [];
      outputBuffer := new uint8[BufferSize](_ => 0);
      outputBufferCount := 0;
      qtLuma := new uint8[64](_ => 0);
      qtChroma := new uint8[64](_ => 0);
      htBits := [];
      htVals := [];
      ehuff := [BlankTable(), BlankTable(), BlankTable(), BlankTable()];
    }

    /**
     * The first half of tjei_write: copies as much of `data` as fits below
     * 1023 staged bytes and hands the buffer to the callback when it is full.
     */
    method Stage(data: seq<uint8>) returns (capped: nat)
      requires Valid()
      modifies this, outputBuffer
      ensures Valid() && TablesKept()
      ensures capped == if |data| < BufferSize - 1 - old(outputBufferCount) then |data| else BufferSize - 1 - old(outputBufferCount)
      ensures Written() == old(Written()) + data[..capped]
      ensures old(outputBufferCount) + capped == BufferSize - 1 ==> outputBufferCount == 0 && sink == Written()
      ensures old(outputBufferCount) + capped < BufferSize - 1 ==> outputBufferCount == old(outputBufferCount) + capped && sink == old(sink)
    {
      var count := outputBufferCount;
      capped := if |data| < BufferSize - 1 - count then |data| else BufferSize - 1 - count;
      forall i | 0 <= i < capped {
        outputBuffer[count + i] := data[i];
      }
      outputBufferCount := count + capped;
      assert outputBuffer[..outputBufferCount] == old(outputBuffer[..count]) + data[..capped];
      if outputBufferCount == BufferSize - 1 {
        sink := sink + outputBuffer[..outputBufferCount];
        outputBufferCount := 0;
      }
    }

    /**
     * tjei_write: stages what fits, flushes a full buffer, and goes on with
     * the rest. The written bytes grow by exactly the data and the count
     * left staged is the remainder modulo 1023; since the staged bytes are
     * the tail of the written ones, the callback has received exactly the
     * whole 1023-byte batches, in order.
     */
    method Write(data: seq<uint8>)
      requires Valid()
      modifies this, outputBuffer
      ensures Valid() && TablesKept()
      ensures Written() == old(Written()) + data
      ensures outputBufferCount == (old(outputBufferCount) + |data|) % (BufferSize - 1)
      decreases |data|
    {
      ghost var count := outputBufferCount;
      var capped := Stage(data);
      if capped < |data| {
        Write(data[capped..]);
        assert data[..capped] + data[capped..] == data;
        BatchCount(|data| - capped);
      } else if count + |data| == BufferSize - 1 {
        assert data[..capped] == data;
        DivModUnique(count + |data|, BufferSize - 1, 1, 0);
      } else {
        assert data[..capped] == data;
        DivModUnique(count + |data|, BufferSize - 1, 0, count + |data|);
      }
    }

    /**
     * The output so far is `prefix` followed by the stuffed bytes of every
     * whole byte of the bits `sent`, and the accumulator holds the fewer than
     * 8 bits that do not yet fill a byte.
     */
    ghost predicate Emitted(prefix: seq<uint8>, sent: seq<bool>, bitbuffer: nat, location: nat)
      reads this, outputBuffer
    {
      && Valid() && location < 8 && location <= |sent|
      && Draining(Written(), prefix, sent[..|sent| - location], bitbuffer, location)
      && Pending(bitbuffer, location) == sent[|sent| - location..]
    }

    /** The body of the output loop of tjei_write_bits: a byte of entropy-coded data, then 0x00 if it is 0xFF. */
    method WriteStuffed(c: uint8)
      requires Valid()
      modifies this, outputBuffer
      ensures Valid() && TablesKept()
      ensures Written() == old(Written()) + Stuff([c])
    {
      StuffOne(c);
      Write([c]);
      if c == 0xFF {
        Write([0x00]);
        assert old(Written()) + [0xFF] + [0x00] == old(Written()) + [0xFF, 0x00];
      }
    }

    /**
     * tjei_write_bits: the new bits go below the pending ones, and every
     * complete byte at the top is written, followed by a 0x00 when it is
     * 0xFF. Afterwards fewer than 8 bits are pending and the output is the
     * stuffed bytes of everything sent so far.
     */
    method WriteBits(bitbuffer: nat, location: nat, numBits: nat, bits: nat, ghost prefix: seq<uint8>, ghost sent: seq<bool>)
        returns (bitbuffer': nat, location': nat)
      requires Emitted(prefix, sent, bitbuffer, location)
      requires numBits <= 16 && bits < Pow2(numBits)
      modifies this, outputBuffer
      ensures Emitted(prefix, sent + BitsOf(bits, numBits), bitbuffer', location')
      ensures TablesKept()
    {
      hide Stuff, PackBytes, BitsOf, Insert, TopByte, ShiftByte, Pow2;
      ghost var all := sent + BitsOf(bits, numBits);
      ghost var done := sent[..|sent| - location];
      SplitLast(done, Pending(bitbuffer, location), sent);
      InsertBits(bitbuffer, location, numBits, bits);
      Reassociate(done, Pending(bitbuffer, location), BitsOf(bits, numBits));
      var nloc := location + numBits;
      bitbuffer' := Insert(bitbuffer, location, numBits, bits);
      location' := nloc;
      while location' >= 8
        invariant Valid() && TablesKept()
        invariant Draining(Written(), prefix, done, bitbuffer', location')
        invariant done + Pending(bitbuffer', location') == all
        decreases location'
      {
        DrainingPop(Written(), prefix, done, bitbuffer', location');
        var c := TopByte(bitbuffer');
        WriteStuffed(c as uint8);
        done := done + BitsOf(c, 8);
        bitbuffer' := ShiftByte(bitbuffer');
        location' := location' - 8;
      }
      SplitLast(done, Pending(bitbuffer', location'), all);
    }

    /** tjei_write_bits of a table entry: the code of `sym`, in as many bits as its length. */
    method WriteCode(t: HuffTable, sym: nat, bitbuffer: nat, location: nat, ghost prefix: seq<uint8>, ghost sent: seq<bool>)
        returns (bitbuffer': nat, location': nat)
      requires Emitted(prefix, sent, bitbuffer, location) && Covers(t, sym)
      modifies this, outputBuffer
      ensures Emitted(prefix, sent + HuffCode(t, sym), bitbuffer', location') && TablesKept()
    {
      bitbuffer', location' := WriteBits(bitbuffer, location, t.size[sym], t.code[sym], prefix, sent);
    }

    /**
     * The DC part of tjei_encode_and_write_MCU: a zero difference is sent as
     * the code of category 0; any other as the code of its category, then
     * its additional bits.
     */
    method WriteDc(diff: int, dc: HuffTable, bitbuffer: nat, location: nat, ghost prefix: seq<uint8>, ghost sent: seq<bool>)
        returns (bitbuffer': nat, location': nat)
      requires Emitted(prefix, sent, bitbuffer, location) && -2047 <= diff <= 2047 && DcReady(dc)
      modifies this, outputBuffer
      ensures Emitted(prefix, sent + DcBits(diff, dc), bitbuffer', location') && TablesKept()
    {
      if diff != 0 {
        var bits, size := CalculateVariableLengthInt(diff);
        DcCategory(diff);
        bitbuffer', location' := WriteCode(dc, size, bitbuffer, location, prefix, sent);
        bitbuffer', location' := WriteBits(bitbuffer', location', size, bits, prefix, sent + HuffCode(dc, size));
        Reassociate(sent, HuffCode(dc, size), BitsOf(bits, size));
      } else {
        bitbuffer', location' := WriteCode(dc, 0, bitbuffer, location, prefix, sent);
      }
    }

    /**
     * The AC part of tjei_encode_and_write_MCU: up to the last nonzero
     * coefficient, zeros are counted, a ZRL goes out for every 16 of them,
     * and each nonzero coefficient is sent as the code of (run << 4) |
     * category followed by its additional bits; EOB follows unless the last
     * nonzero coefficient is at index 63.
     */
    method WriteAc(du: seq<int>, last: nat, ac: HuffTable, bitbuffer: nat, location: nat,
                   ghost prefix: seq<uint8>, ghost sent: seq<bool>)
        returns (bitbuffer': nat, location': nat)
      requires Emitted(prefix, sent, bitbuffer, location)
      requires |du| == 64 && AcInRange(du) && last == LastNonZero(du) && AcReady(ac)
      modifies this, outputBuffer
      ensures Emitted(prefix, sent + TokensBits(BlockTokens(du), ac), bitbuffer', location') && TablesKept()
    {
      ghost var done: seq<AcToken> := [];
      ghost var out := sent;
      assert sent + TokensBits([], ac) == sent;
      bitbuffer', location' := bitbuffer, location;
      var i := 1;
      while i <= last
        invariant 1 <= i <= last + 1
        invariant done + AcTokens(du, i, 0) == BlockTokens(du)
        invariant out == sent + TokensBits(done, ac)
        invariant Emitted(prefix, out, bitbuffer', location') && TablesKept()
        decreases 64 - i
      {
        ghost var tokens;
        ghost var i0 := i;
        i, bitbuffer', location', tokens := WriteCoefficient(du, i, last, ac, bitbuffer', location', prefix, out);
        Reassociate(done, tokens, AcTokens(du, i, 0));
        TokensBitsAppend(sent, done, tokens, ac);
        out := out + TokensBits(tokens, ac);
        done := done + tokens;
      }
      if last != 63 {
        TrailingZerosEob(du, last + 1, 0);
        bitbuffer', location' := WriteMarkerToken(Eob, ac, bitbuffer', location', prefix, out);
        TokensBitsSnoc(sent, done, Eob, ac);
        out := out + TokenBits(Eob, ac);
        done := done + [Eob];
      } else {
        assert done + [] == done;
      }
      assert done == BlockTokens(du);
    }

    /**
     * One pass of the AC loop from index `i`: the zeros before the next
     * nonzero coefficient are counted, with a ZRL for every 16 of them, then
     * that coefficient is sent. `tokens` are the tokens this pass sends.
     */
    method WriteCoefficient(du: seq<int>, i: nat, last: nat, ac: HuffTable, bitbuffer: nat, location: nat,
                            ghost prefix: seq<uint8>, ghost sent: seq<bool>)
        returns (i': nat, bitbuffer': nat, location': nat, ghost tokens: seq<AcToken>)
      requires Emitted(prefix, sent, bitbuffer, location)
      requires |du| == 64 && AcInRange(du) && last == LastNonZero(du) && 1 <= i <= last && AcReady(ac)
      modifies this, outputBuffer
      ensures i < i' <= last + 1
      ensures AcTokens(du, i, 0) == tokens + AcTokens(du, i', 0)
      ensures Emitted(prefix, sent + TokensBits(tokens, ac), bitbuffer', location') && TablesKept()
    {
      var zeroCount;
      i', zeroCount, bitbuffer', location', tokens := SkipZeros(du, i, last, ac, bitbuffer, location, prefix, sent);
      ghost var out := sent + TokensBits(tokens, ac);
      NonzeroToken(du, i', zeroCount);
      bitbuffer', location' := WriteRun(zeroCount, du[i'], ac, bitbuffer', location', prefix, out);
      TokensBitsSnoc(sent, tokens, Run(zeroCount, du[i']), ac);
      Reassociate(tokens, [Run(zeroCount, du[i'])], AcTokens(du, i' + 1, 0));
      tokens := tokens + [Run(zeroCount, du[i'])];
      i' := i' + 1;
    }

    /**
     * The zero-counting loop of tjei_encode_and_write_MCU: counts zeros up
     * to the next nonzero coefficient, sending ZRL for each run of 16.
     */
    method SkipZeros(du: seq<int>, i: nat, last: nat, ac: HuffTable, bitbuffer: nat, location: nat,
                     ghost prefix: seq<uint8>, ghost sent: seq<bool>)
        returns (i': nat, zeroCount: nat, bitbuffer': nat, location': nat, ghost tokens: seq<AcToken>)
      requires Emitted(prefix, sent, bitbuffer, location)
      requires |du| == 64 && AcInRange(du) && last == LastNonZero(du) && 1 <= i <= last && AcReady(ac)
      modifies this, outputBuffer
      ensures i <= i' <= last && zeroCount < 16 && du[i'] != 0
      ensures AcTokens(du, i, 0) == tokens + AcTokens(du, i', zeroCount)
      ensures Emitted(prefix, sent + TokensBits(tokens, ac), bitbuffer', location') && TablesKept()
    {
      tokens := [];
      assert sent + TokensBits([], ac) == sent;
      hide AcTokens, TokensBits, TokenBits, Emitted, LastNonZero, AcInRange, AcReady;
      bitbuffer', location' := bitbuffer, location;
      i' := i;
      zeroCount := 0;
      while du[i'] == 0
        invariant i <= i' <= last && zeroCount < 16
        invariant AcTokens(du, i, 0) == tokens + AcTokens(du, i', zeroCount)
        invariant Emitted(prefix, sent + TokensBits(tokens, ac), bitbuffer', location') && TablesKept()
        decreases last - i'
      {
        ZeroAdvance(du, i, i', zeroCount, last, tokens);
        zeroCount := zeroCount + 1;
        i' := i' + 1;
        if zeroCount == 16 {
          bitbuffer', location' := WriteMarkerToken(Zrl, ac, bitbuffer', location', prefix, sent + TokensBits(tokens, ac));
          TokensBitsSnoc(sent, tokens, Zrl, ac);
          tokens := tokens + [Zrl];
          zeroCount := 0;
        }
      }
    }

    /** ZRL (0xF0) or EOB (0x00): the code of the symbol alone. */
    method WriteMarkerToken(tok: AcToken, ac: HuffTable, bitbuffer: nat, location: nat,
                            ghost prefix: seq<uint8>, ghost sent: seq<bool>)
        returns (bitbuffer': nat, location': nat)
      requires Emitted(prefix, sent, bitbuffer, location) && !tok.Run? && AcReady(ac)
      modifies this, outputBuffer
      ensures Emitted(prefix, sent + TokenBits(tok, ac), bitbuffer', location') && TablesKept()
    {
      var sym := if tok == Zrl then 0xF0 else 0x00;
      assert Symbol(tok) == sym && AcSymbol(sym);
      bitbuffer', location' := WriteCode(ac, sym, bitbuffer, location, prefix, sent);
    }

    /**
     * One coefficient of the AC loop: its category and additional bits from
     * tjei_calculate_variable_length_int, the code of (run << 4) | category,
     * then the additional bits.
     */
    method WriteRun(zeroCount: nat, value: int, ac: HuffTable, bitbuffer: nat, location: nat,
                    ghost prefix: seq<uint8>, ghost sent: seq<bool>)
        returns (bitbuffer': nat, location': nat)
      requires Emitted(prefix, sent, bitbuffer, location)
      requires zeroCount < 16 && value != 0 && Category(value) <= 10 && AcReady(ac)
      modifies this, outputBuffer
      ensures Emitted(prefix, sent + TokenBits(Run(zeroCount, value), ac), bitbuffer', location') && TablesKept()
    {
      var bits, size := CalculateVariableLengthInt(value);
      var sym := zeroCount * 16 + size;
      DivModUnique(sym, 16, zeroCount, size);
      assert AcSymbol(sym);
      bitbuffer', location' := WriteCode(ac, sym, bitbuffer, location, prefix, sent);
      bitbuffer', location' := WriteBits(bitbuffer', location', size, bits, prefix, sent + HuffCode(ac, sym));
      Reassociate(sent, HuffCode(ac, sym), BitsOf(bits, size));
    }

    /**
     * tjei_encode_and_write_MCU after the transform: the quantized block in
     * natural order is rearranged into zig-zag order and sent against the
     * predictor, which becomes the block's DC value.
     */
    method EncodeAndWriteMcu(block: seq<int>, dc: HuffTable, ac: HuffTable, pred: int, bitbuffer: nat, location: nat,
                             ghost prefix: seq<uint8>, ghost sent: seq<bool>)
        returns (pred': int, bitbuffer': nat, location': nat)
      requires Emitted(prefix, sent, bitbuffer, location)
      requires Quantized(block) && -1024 <= pred <= 1023 && DcReady(dc) && AcReady(ac)
      modifies this, outputBuffer
      ensures pred' == block[0] && TablesKept()
      ensures Emitted(prefix, sent + CodedBits(CodedBlock(block, pred, dc, ac)), bitbuffer', location')
    {
      var scattered := ZigZagScatter(block);
      var du := scattered[..];
      QuantizedInRange(block);
      var diff := du[0] - pred;
      pred' := du[0];
      bitbuffer', location' := WriteDc(diff, dc, bitbuffer, location, prefix, sent);
      var last := FindLastNonZero(du);
      ghost var mid := sent + DcBits(diff, dc);
      bitbuffer', location' := WriteAc(du, last, ac, bitbuffer', location', prefix, mid);
      CodedBitsOrder(CodedBlock(block, pred, dc, ac), du);
      BlockBitsParts(du, pred, diff, dc, ac);
      Reassociate(sent, DcBits(diff, dc), TokensBits(BlockTokens(du), ac));
    }

    /** tjei_write_DQT: the marker, the length 0x43, the precision and id byte, then the 64 entries as stored. */
    method WriteDqt(matrix: array<uint8>, id: uint8)
      requires Valid() && matrix.Length == 64 && matrix != outputBuffer && id < 4
      modifies this, outputBuffer
      ensures Valid() && TablesKept()
      ensures Written() == old(Written()) + DqtSegment(matrix[..], id)
    {
      ghost var w := Written();
      Write(BeWord(0xFFDB));
      Write(BeWord(0x0043));
      Write([id]);
      Write(matrix[..]);
      MarkerWord(0xDB);
      AppendFour(w, BeWord(0xFFDB), BeWord(0x0043), [id], matrix[..]);
    }

    /**
     * tjei_write_DHT: counts the values the 16 counts announce, then writes
     * the marker, the length, the class and id byte, the counts and that
     * many values.
     */
    method WriteDht(bits: seq<uint8>, vals: seq<uint8>, tableClass: nat, id: nat)
      requires Valid() && |bits| == 16 && Total(bits, 16) <= |vals| && tableClass < 2 && id < 4
      modifies this, outputBuffer
      ensures Valid() && TablesKept()
      ensures Written() == old(Written()) + DhtSegment(bits, vals, tableClass, id)
    {
      var numValues := 0;
      for i := 0 to 16
        invariant numValues == Total(bits, i)
      {
        numValues := numValues + bits[i] as nat;
      }
      hide Total, BeWord, Marker;
      ghost var w := Written();
      var tcTh := (tableClass * 16 + id) as uint8;
      Write(BeWord(0xFFC4));
      Write(BeWord(2 + 1 + 16 + numValues));
      Write([tcTh]);
      Write(bits);
      Write(vals[..numValues]);
      MarkerWord(0xC4);
      AppendFive(w, BeWord(0xFFC4), BeWord(19 + numValues), [tcTh], bits, vals[..numValues]);
    }

    /**
     * The header part of tjei_encode_main: SOI with the JFIF record, the
     * comment, the two quantization tables, the frame header, the four
     * Huffman tables from the specifications the state holds, and the scan
     * header, each as one write.
     */
    method WriteHeaders(width: int, height: int)
      requires Valid() && HuffSpecs(htBits, htVals)
      modifies this, outputBuffer
      ensures Valid() && TablesKept()
      ensures Written() == old(Written()) + Headers(width, height, qtLuma[..], qtChroma[..], htBits, htVals)
    {
      ghost var w := Written();
      Write(Marker(0xD8) + App0Segment());
      ghost var acc := Marker(0xD8) + App0Segment();
      Write(CommentSegment());
      Reassociate(w, acc, CommentSegment());
      acc := acc + CommentSegment();
      WriteDqt(qtLuma, 0);
      Reassociate(w, acc, DqtSegment(qtLuma[..], 0));
      acc := acc + DqtSegment(qtLuma[..], 0);
      WriteDqt(qtChroma, 1);
      Reassociate(w, acc, DqtSegment(qtChroma[..], 1));
      acc := acc + DqtSegment(qtChroma[..], 1);
      Write(FrameHeader(width, height));
      Reassociate(w, acc, FrameHeader(width, height));
      acc := acc + FrameHeader(width, height);
      WriteDht(htBits[0], htVals[0], 0, 0);
      Reassociate(w, acc, SpecDht(htBits, htVals, 0));
      acc := acc + SpecDht(htBits, htVals, 0);
      WriteDht(htBits[1], htVals[1], 1, 0);
      Reassociate(w, acc, SpecDht(htBits, htVals, 1));
      acc := acc + SpecDht(htBits, htVals, 1);
      WriteDht(htBits[2], htVals[2], 0, 1);
      Reassociate(w, acc, SpecDht(htBits, htVals, 2));
      acc := acc + SpecDht(htBits, htVals, 2);
      WriteDht(htBits[3], htVals[3], 1, 1);
      Reassociate(w, acc, SpecDht(htBits, htVals, 3));
      acc := acc + SpecDht(htBits, htVals, 3);
      Write(ScanHeader());
      Reassociate(w, acc, ScanHeader());
      acc := acc + ScanHeader();
      assert acc == Headers(width, height, qtLuma[..], qtChroma[..], htBits, htVals);
    }

    /**
     * tjei_huff_expand: installs the default specifications and expands each
     * into the state's lookup tables. For the zero-initialised state of
     * tje_encode_with_func this gives the default expanded tables.
     */
    method HuffExpand()
      requires Valid() && |ehuff| == 4
      requires forall i :: 0 <= i < 4 ==> |ehuff[i].size| == 256 && |ehuff[i].code| == 256
      modifies this
      ensures Valid() && sink == old(sink) && outputBufferCount == old(outputBufferCount)
      ensures htBits == DefaultHtBits && htVals == DefaultHtVals && |ehuff| == 4 && SpecsReady(htBits, htVals)
      ensures forall i :: 0 <= i < 4 ==> ehuff[i] == ExpandOnto(old(ehuff)[i], htBits[i], htVals[i])
    {
      htBits := [LumaDcBits, LumaAcBits, ChromaDcBits, ChromaAcBits];
      htVals := [LumaDcVals, LumaAcVals, ChromaDcVals, ChromaAcVals];
      DefaultSpecsReady();
      ExpandTables();
    }

    /** With nothing sent and nothing staged, nothing is written. */
    lemma NothingWritten()
      requires Valid() && sink == [] && outputBufferCount == 0
      ensures Written() == []
    {
    }

    /**
     * The quality switch of tje_encode_with_func: level 3 stores 1 in every
     * entry; levels 2 and 1 store each default entry divided by 10 or by 1,
     * raised to 1 when the quotient is 0.
     */
    method SetQuality(quality: int)
      requires Valid() && 1 <= quality <= 3
      modifies qtLuma, qtChroma
      ensures qtLuma[..] == TierTable(QtLumaFromSpec, quality)
      ensures qtChroma[..] == TierTable(QtChromaFromPaper, quality)
    {
      DefaultQtAtLeastTen();
      FillTiers(QtLumaFromSpec, QtChromaFromPaper, quality);
    }

    /** The loops of the quality switch, over default tables `luma` and `chroma`. */
    method FillTiers(luma: seq<uint8>, chroma: seq<uint8>, quality: int)
      requires Valid() && |luma| == 64 && |chroma| == 64 && 1 <= quality <= 3
      modifies qtLuma, qtChroma
      ensures qtLuma[..] == TierTable(luma, quality) && qtChroma[..] == TierTable(chroma, quality)
    {
      if quality == 3 {
        for i := 0 to 64
          invariant forall j :: 0 <= j < i ==> qtLuma[j] == 1 && qtChroma[j] == 1
        {
          qtLuma[i] := 1;
          qtChroma[i] := 1;
        }
      } else {
        var factor: uint8 := if quality == 2 then 10 else 1;
        for i := 0 to 64
          invariant forall j :: 0 <= j < i ==> qtLuma[j] == TierTable(luma, quality)[j]
          invariant forall j :: 0 <= j < i ==> qtChroma[j] == TierTable(chroma, quality)[j]
        {
          qtLuma[i] := luma[i] / factor;
          if qtLuma[i] == 0 {
            qtLuma[i] := 1;
          }
          qtChroma[i] := chroma[i] / factor;
          if qtChroma[i] == 0 {
            qtChroma[i] := 1;
          }
        }
      }
    }

    /**
     * The loops of tjei_huff_expand: for each of the four specifications
     * held, the number of values, the code lengths, the codes, and their
     * scatter into the lookup tables. Every symbol listed gets its
     * canonical code and length; the others keep what they held.
     */
    method ExpandTables()
      requires Valid() && SpecsReady(htBits, htVals) && |ehuff| == 4
      requires forall i :: 0 <= i < 4 ==> |ehuff[i].size| == 256 && |ehuff[i].code| == 256
      modifies this
      ensures Valid() && sink == old(sink) && outputBufferCount == old(outputBufferCount)
      ensures htBits == old(htBits) && htVals == old(htVals) && |ehuff| == 4
      ensures forall i :: 0 <= i < 4 ==> ehuff[i] == ExpandOnto(old(ehuff)[i], htBits[i], htVals[i])
    {
      ghost var before := ehuff;
      for i := 0 to 4
        invariant Valid() && sink == old(sink) && outputBufferCount == old(outputBufferCount)
        invariant htBits == old(htBits) && htVals == old(htVals) && |ehuff| == 4
        invariant forall j :: 0 <= j < i ==> ehuff[j] == ExpandOnto(before[j], htBits[j], htVals[j])
        invariant forall j :: i <= j < 4 ==> ehuff[j] == before[j]
      {
        var t := ExpandTable(htBits[i], htVals[i], ehuff[i].size, ehuff[i].code);
        ehuff := ehuff[i := t];
      }
    }

    /**
     * The end of tjei_encode_main: whatever is still staged is handed to
     * the callback, and the buffer is empty.
     */
    method Flush()
      requires Valid()
      modifies this
      ensures Valid() && TablesKept() && sink == old(Written()) && outputBufferCount == 0
    {
      if outputBufferCount != 0 {
        sink := sink + outputBuffer[..outputBufferCount];
        outputBufferCount := 0;
      }
    }

    /**
     * tjei_encode_main: rejects a colour format outside 2..4 and a
     * dimension above 0xFFFF before writing anything; otherwise writes the
     * headers, codes the tiles row by row with the DC predictors starting
     * at 0, completes the last byte with 0 bits, writes EOI, hands the rest
     * of the buffer to the callback and returns 1. What the callback has
     * received is then the whole file.
     */
    method EncodeMain(src: seq<uint8>, width: int, height: int, format: int, transform: Transform) returns (result: int)
      requires Valid() && HuffSpecs(htBits, htVals) && TablesReady(ehuff) && Baseline(transform)
      requires Fits(Image(src, width, height, format)) || !Accepted(width, height, format)
      modifies this, outputBuffer
      ensures TablesKept() && Valid()
      ensures !Accepted(width, height, format) ==> result == 0 && Written() == old(Written())
      ensures Accepted(width, height, format) ==> result == 1 && outputBufferCount == 0
      ensures Accepted(width, height, format) ==>
        sink == old(Written()) + JpegFile(width, height, qtLuma[..], qtChroma[..], htBits, htVals,
                                          ScanBits(Image(src, width, height, format), Coding(transform, Divisors(qtLuma[..]), Divisors(qtChroma[..]), ehuff)))
    {
      hide JpegFile, ScanBits, Written, Fits, CodingReady, HuffSpecs, TablesReady;
      if format < 2 || format > 4 {
        return 0;
      }
      if width > 0xFFFF || height > 0xFFFF {
        return 0;
      }
      EncodeImage(Image(src, width, height, format), transform);
      result := 1;
    }

    /**
     * The part of tjei_encode_main after the parameter checks: the divisors
     * of both tables, the headers, the scan and the end of the file.
     */
    method EncodeImage(img: Image, transform: Transform)
      requires Valid() && HuffSpecs(htBits, htVals) && TablesReady(ehuff) && Baseline(transform) && Fits(img)
      modifies this, outputBuffer
      ensures TablesKept() && Valid() && outputBufferCount == 0
      ensures sink == old(Written()) + JpegFile(img.width, img.height, qtLuma[..], qtChroma[..], htBits, htVals,
                                                ScanBits(img, Coding(transform, Divisors(qtLuma[..]), Divisors(qtChroma[..]), ehuff)))
    {
      hide ScanBits, BlockStream, ScanRows, ScanRow, McuStep, Headers, Stuff, PackBytes, Padded, Written, Emitted, Divisors;
      var divLuma := QuantizerOrder(qtLuma);
      var divChroma := QuantizerOrder(qtChroma);
      hide Valid;
      ghost var start := Written();
      WriteHeaders(img.width, img.height);
      var c := Coding(transform, divLuma, divChroma, ehuff);
      ghost var prefix := Written();
      var bitbuffer, location := EncodeScan(img, c, prefix);
      ghost var scan := ScanBits(img, c);
      FinishScan(bitbuffer, location, prefix, scan);
      ghost var headers := Headers(img.width, img.height, qtLuma[..], qtChroma[..], htBits, htVals);
      ghost var body := Stuff(PackBytes(Padded(scan)));
      Reassociate(start + headers, body, Marker(0xD9));
      Reassociate(start, headers, body + Marker(0xD9));
      Reassociate(headers, body, Marker(0xD9));
    }

    /**
     * The end of tjei_encode_main after the last MCU: the pending bits are
     * completed to a byte with 0 bits when there are any, EOI is written
     * and the rest of the buffer is handed to the callback.
     */
    method FinishScan(bitbuffer: nat, location: nat, ghost prefix: seq<uint8>, ghost scan: seq<bool>)
      requires Emitted(prefix, scan, bitbuffer, location)
      modifies this, outputBuffer
      ensures Valid() && TablesKept() && outputBufferCount == 0
      ensures sink == prefix + Stuff(PackBytes(Padded(scan))) + Marker(0xD9)
    {
      PadScan(bitbuffer, location, prefix, scan);
      hide Written, Stuff, PackBytes, Padded, BeWord, Marker;
      MarkerWord(0xD9);
      Write(BeWord(0xFFD9));
      Flush();
    }

    /** `tjei_write_bits(state, &bitbuffer, &location, 8 - location, 0)` when bits are pending. */
    method PadScan(bitbuffer: nat, location: nat, ghost prefix: seq<uint8>, ghost scan: seq<bool>)
      requires Emitted(prefix, scan, bitbuffer, location)
      modifies this, outputBuffer
      ensures Valid() && TablesKept()
      ensures Written() == prefix + Stuff(PackBytes(Padded(scan)))
    {
      EmittedLocation(prefix, scan, bitbuffer, location);
      hide Emitted, Written, Stuff, PackBytes, Padded, BitsOf;
      PaddedByLocation(scan, location);
      var bb, loc := bitbuffer, location;
      if location > 0 && location < 8 {
        bb, loc := WriteBits(bitbuffer, location, 8 - location, 0, prefix, scan);
      }
      PaddedWritten(prefix, Padded(scan), bb, loc);
    }

    /** The pending bits are the ones past the last whole byte. */
    lemma EmittedLocation(prefix: seq<uint8>, sent: seq<bool>, bitbuffer: nat, location: nat)
      requires Emitted(prefix, sent, bitbuffer, location)
      ensures Valid() && location == |sent| % 8
    {
      DivModUnique(|sent|, 8, (|sent| - location) / 8, location);
    }

    /** Before the first block nothing is pending and nothing follows the prefix. */
    lemma NothingEmitted(prefix: seq<uint8>)
      requires Valid() && Written() == prefix
      ensures Emitted(prefix, [], 0, 0)
    {
      assert Pow2(32) == 0x1_0000_0000 by { Pow2Values(); }
      assert PackBytes([]) == [];
    }

    /** With no bit pending after a whole number of bytes, the output is the stuffed bytes of all the bits. */
    lemma PaddedWritten(prefix: seq<uint8>, bits: seq<bool>, bitbuffer: nat, location: nat)
      requires Emitted(prefix, bits, bitbuffer, location) && |bits| % 8 == 0
      ensures Written() == prefix + Stuff(PackBytes(bits))
    {
      EmittedLocation(prefix, bits, bitbuffer, location);
      assert bits[..|bits| - location] == bits;
      assert Draining(Written(), prefix, bits, bitbuffer, location);
    }

    /**
     * The two loops of tjei_encode_main over the tiles: rows of tiles top to
     * bottom, tiles left to right, the DC predictors starting at 0 and the
     * accumulator empty. The bits sent are those of the whole scan.
     */
    method EncodeScan(img: Image, c: Coding, ghost prefix: seq<uint8>) returns (bitbuffer: nat, location: nat)
      requires Valid() && Written() == prefix
      requires Fits(img) && CodingReady(c) && c.tables == ehuff
      modifies this, outputBuffer
      ensures Emitted(prefix, ScanBits(img, c), bitbuffer, location) && TablesKept()
    {
      bitbuffer, location := 0, 0;
      var predY, predCb, predCr := 0, 0, 0;
      ghost var st := Start;
      NothingEmitted(prefix);
      assert BlockStream(st.blocks) == [];
      hide BlockStream, ScanRow, McuStep, Emitted;
      var y := 0;
      while y < img.height
        invariant 0 <= y && TablesKept()
        invariant ScanRows(st, img, c, y) == ScanRows(Start, img, c, 0)
        invariant Emitted(prefix, BlockStream(st.blocks), bitbuffer, location)
        invariant PredictorsInRange(st) && predY == st.predY && predCb == st.predCb && predCr == st.predCr
        decreases img.height - y
      {
        predY, predCb, predCr, bitbuffer, location := EncodeRow(img, c, y, st, predY, predCb, predCr, bitbuffer, location, prefix);
        RowsStep(st, img, c, y);
        st := ScanRow(st, img, c, 0, y);
        y := y + 8;
      }
    }

    /** The inner loop of tjei_encode_main: the tiles of the row at y, left to right. */
    method EncodeRow(img: Image, c: Coding, y: int, ghost st: ScanState,
                     predY: int, predCb: int, predCr: int, bitbuffer: nat, location: nat, ghost prefix: seq<uint8>)
        returns (predY': int, predCb': int, predCr': int, bitbuffer': nat, location': nat)
      requires Emitted(prefix, BlockStream(st.blocks), bitbuffer, location)
      requires Fits(img) && CodingReady(c) && c.tables == ehuff && 0 <= y < img.height
      requires PredictorsInRange(st) && predY == st.predY && predCb == st.predCb && predCr == st.predCr
      modifies this, outputBuffer
      ensures TablesKept()
      ensures Emitted(prefix, BlockStream(ScanRow(st, img, c, 0, y).blocks), bitbuffer', location')
      ensures predY' == ScanRow(st, img, c, 0, y).predY && predCb' == ScanRow(st, img, c, 0, y).predCb
      ensures predCr' == ScanRow(st, img, c, 0, y).predCr
    {
      hide BlockStream, McuStep, Emitted;
      ghost var cur := st;
      predY', predCb', predCr', bitbuffer', location' := predY, predCb, predCr, bitbuffer, location;
      var x := 0;
      while x < img.width
        invariant 0 <= x && TablesKept()
        invariant ScanRow(cur, img, c, x, y) == ScanRow(st, img, c, 0, y)
        invariant Emitted(prefix, BlockStream(cur.blocks), bitbuffer', location')
        invariant PredictorsInRange(cur) && predY' == cur.predY && predCb' == cur.predCb && predCr' == cur.predCr
        decreases img.width - x
      {
        predY', predCb', predCr', bitbuffer', location' := EncodeTile(img, c, x, y, cur, predY', predCb', predCr', bitbuffer', location', prefix);
        RowStep(cur, img, c, x, y);
        cur := McuStep(cur, img, c, x, y);
        x := x + 8;
      }
    }

    /**
     * One MCU of the main loop: the pixels of the tile at (x, y), its Y, Cb
     * and Cr blocks, and the three calls of tjei_encode_and_write_MCU with
     * the luma tables and pred_y, then the chroma tables with pred_b and
     * pred_r. The bits sent are those of the three blocks McuStep adds.
     */
    method EncodeTile(img: Image, c: Coding, x: int, y: int, ghost st: ScanState,
                      predY: int, predCb: int, predCr: int, bitbuffer: nat, location: nat, ghost prefix: seq<uint8>)
        returns (predY': int, predCb': int, predCr': int, bitbuffer': nat, location': nat)
      requires Emitted(prefix, BlockStream(st.blocks), bitbuffer, location)
      requires Fits(img) && CodingReady(c) && c.tables == ehuff
      requires 0 <= x < img.width && 0 <= y < img.height
      requires PredictorsInRange(st) && predY == st.predY && predCb == st.predCb && predCr == st.predCr
      modifies this, outputBuffer
      ensures TablesKept()
      ensures Emitted(prefix, BlockStream(McuStep(st, img, c, x, y).blocks), bitbuffer', location')
      ensures predY' == McuStep(st, img, c, x, y).predY && predCb' == McuStep(st, img, c, x, y).predCb
      ensures predCr' == McuStep(st, img, c, x, y).predCr
    {
      var px := ReadTile(img.src, img.width, img.height, img.format, x, y);
      var luma := c.transform(px, Luma, c.divLuma);
      var blue := c.transform(px, BlueDifference, c.divChroma);
      var red := c.transform(px, RedDifference, c.divChroma);
      assert Quantized(luma) && Quantized(blue) && Quantized(red);
      ghost var b0 := CodedBlock(luma, predY, ehuff[0], ehuff[1]);
      ghost var b1 := CodedBlock(blue, predCb, ehuff[2], ehuff[3]);
      ghost var b2 := CodedBlock(red, predCr, ehuff[2], ehuff[3]);
      ghost var sent := BlockStream(st.blocks);
      predY', bitbuffer', location' := EncodeAndWriteMcu(luma, ehuff[0], ehuff[1], predY, bitbuffer, location, prefix, sent);
      predCb', bitbuffer', location' := EncodeAndWriteMcu(blue, ehuff[2], ehuff[3], predCb, bitbuffer', location', prefix, sent + CodedBits(b0));
      predCr', bitbuffer', location' := EncodeAndWriteMcu(red, ehuff[2], ehuff[3], predCr, bitbuffer', location', prefix, sent + CodedBits(b0) + CodedBits(b1));
      BlockStreamTriple(st.blocks, b0, b1, b2);
      assert McuStep(st, img, c, x, y).blocks == st.blocks + [b0, b1, b2];
    }
  }

  /** The four expanded tables give a code to everything a baseline block can send. */
  ghost predicate TablesReady(t: seq<HuffTable>)
  {
    |t| == 4 && DcReady(t[0]) && AcReady(t[1]) && DcReady(t[2]) && AcReady(t[3])
  }

  /** The colour formats and dimensions tjei_encode_main goes on with. */
  predicate Accepted(width: int, height: int, format: int)
  {
    2 <= format <= 4 && width <= 0xFFFF && height <= 0xFFFF
  }

  /** Four specifications tjei_huff_expand can expand: 16 counts each, announcing 1..256 values that are all listed. */
  ghost predicate SpecsReady(bits: seq<seq<uint8>>, vals: seq<seq<uint8>>)
  {
    HuffSpecs(bits, vals) && forall i :: 0 <= i < 4 ==> 1 <= Total(bits[i], 16) <= 256
  }

  /** The default specifications, in the state's order, are ready to expand. */
  lemma DefaultSpecsReady()
    ensures SpecsReady(DefaultHtBits, DefaultHtVals)
  {
    LumaDcSized();
    LumaAcSized();
    ChromaDcSized();
    ChromaAcSized();
    SpecsReadyOf(LumaDcBits, LumaAcBits, ChromaDcBits, ChromaAcBits, LumaDcVals, LumaAcVals, ChromaDcVals, ChromaAcVals);
  }

  lemma SpecsReadyOf(b0: seq<uint8>, b1: seq<uint8>, b2: seq<uint8>, b3: seq<uint8>,
                     v0: seq<uint8>, v1: seq<uint8>, v2: seq<uint8>, v3: seq<uint8>)
    requires |b0| == 16 && 1 <= Total(b0, 16) == |v0| <= 256
    requires |b1| == 16 && 1 <= Total(b1, 16) == |v1| <= 256
    requires |b2| == 16 && 1 <= Total(b2, 16) == |v2| <= 256
    requires |b3| == 16 && 1 <= Total(b3, 16) == |v3| <= 256
    ensures SpecsReady([b0, b1, b2, b3], [v0, v1, v2, v3])
  {
  }

  /**
   * The tables tjei_huff_get_extended leaves when it starts from `t0`:
   * each listed symbol gets its length and code, the rest keep theirs.
   */
  function ExpandOnto(t0: HuffTable, bits: seq<uint8>, vals: seq<uint8>): (t: HuffTable)
    requires |bits| == 16 && Total(bits, 16) <= |vals| && |t0.size| == 256 && |t0.code| == 256
    ensures |t.size| == 256 && |t.code| == 256
    ensures t0 == BlankTable() ==> t == Expand(bits, vals)
  {
    var n := Total(bits, 16);
    HuffTable(Scatter(t0.size, vals, Sizes(bits, 16), n), Scatter(t0.code, vals, Codes(bits), n))
  }

  /**
   * One table of tjei_huff_expand: the number of values, the code lengths
   * (huffsize, with its terminating 0), the codes (huffcode) and the
   * scatter of both into lookup arrays that start as `size0` and `code0`.
   */
  method ExpandTable(bits: seq<uint8>, vals: seq<uint8>, size0: seq<nat>, code0: seq<nat>) returns (t: HuffTable)
    requires |bits| == 16 && 1 <= Total(bits, 16) <= 256 && Total(bits, 16) <= |vals|
    requires |size0| == 256 && |code0| == 256
    ensures t == ExpandOnto(HuffTable(size0, code0), bits, vals)
  {
    var count := 0;
    for k := 0 to 16
      invariant count == Total(bits, k)
    {
      count := count + bits[k] as nat;
    }
    var huffsize := new nat[257];
    var huffcode := new nat[256];
    GetCodeLengths(huffsize, bits);
    ghost var s := Sizes(bits, 16);
    assert huffsize[..count] == s && huffsize[count] == 0 by {
      assert huffsize[..count] == huffsize[..count + 1][..count];
      assert huffsize[count] == huffsize[..count + 1][count];
    }
    SizesShape(bits, 16);
    assert huffsize[..][..count] == s;
    GetCodes(huffcode, huffsize, count);
    assert huffcode[..count] == Codes(bits);
    var outSize := new nat[256](j requires 0 <= j < 256 => size0[j]);
    var outCode := new nat[256](j requires 0 <= j < 256 => code0[j]);
    assert outSize[..] == size0 && outCode[..] == code0;
    GetExtended(outSize, outCode, vals, huffsize, huffcode, count);
    t := HuffTable(outSize[..], outCode[..]);
  }

  /** `du[order[i]] = block[i]` for every i, into a new array, for an order with a left inverse. */
  method Place(block: seq<int>, order: seq<nat>, inverse: seq<nat>) returns (du: array<int>)
    requires |block| == 64 && |order| == 64 && |inverse| == 64
    requires forall i :: 0 <= i < 64 ==> order[i] < 64 && inverse[order[i]] == i
    ensures fresh(du) && du.Length == 64 && forall i :: 0 <= i < 64 ==> du[order[i]] == block[i]
  {
    du := new int[64];
    for i := 0 to 64
      invariant forall j :: 0 <= j < i ==> du[order[j]] == block[j]
    {
      forall j | 0 <= j < i
        ensures order[j] != order[i]
      {
        assert inverse[order[j]] == j;
      }
      du[order[i]] := block[i];
    }
  }

  /** `du[tjei_zig_zag[i]] = val` for every i: the block in zig-zag order in a new array. */
  method ZigZagScatter(block: seq<int>) returns (du: array<int>)
    requires |block| == 64
    ensures fresh(du) && du.Length == 64 && du[..] == ZigZagOrder(block)
  {
    ZigZagPermutation();
    du := Place(block, ZigZag, ScanOrder);
    forall k | 0 <= k < 64
      ensures du[k] == ZigZagOrder(block)[k]
    {
      assert du[ZigZag[ScanOrder[k]]] == block[ScanOrder[k]];
    }
  }

  /** The backward search for the last nonzero AC coefficient; 0 when there is none. */
  method FindLastNonZero(du: seq<int>) returns (last: nat)
    requires |du| == 64
    ensures last == LastNonZero(du[..])
  {
    last := 0;
    var i := 63;
    while i > 0
      invariant 0 <= i <= 63
      invariant forall j :: i < j < 64 ==> du[j] == 0
    {
      if du[i] != 0 {
        last := i;
        break;
      }
      i := i - 1;
    }
  }

  /** A DC difference of two baseline values needs a category of at most 11. */
  lemma DcCategory(diff: int)
    requires -2047 <= diff <= 2047
    ensures Category(diff) <= 11
  {
    Pow2Table();
    CategoryAtMost(diff, 11);
  }

  /** One more full batch of the staging buffer. */
  lemma BatchCount(n: nat)
    ensures (BufferSize - 1 + n) / (BufferSize - 1) == 1 + n / (BufferSize - 1)
    ensures (BufferSize - 1 + n) % (BufferSize - 1) == n % (BufferSize - 1)
  {
    DivModUnique(BufferSize - 1 + n, BufferSize - 1, 1 + n / (BufferSize - 1), n % (BufferSize - 1));
  }

  /**
   * The pqt loop of tjei_encode_main: the divisor of the coefficient at
   * natural position i is the stored entry qt[tjei_zig_zag[i]]. (The
   * source folds the AAN scale factors into a floating-point reciprocal;
   * the model keeps the integer divisor.)
   */
  method QuantizerOrder(qt: array<uint8>) returns (div: seq<uint8>)
    requires qt.Length == 64
    ensures div == Divisors(qt[..])
  {
    ZigZagPermutation();
    var d := new uint8[64];
    for i := 0 to 64
      invariant forall j :: 0 <= j < i ==> d[j] == qt[ZigZag[j]]
    {
      d[i] := qt[ZigZag[i]];
    }
    div := d[..];
  }

  /**
   * The off_y/off_x loops of tjei_encode_main: for each of the 64
   * positions of the tile at (x, y), the source index pulled back to the
   * last row and column, and the pixel read there in the source format.
   */
  method ReadTile(src: seq<uint8>, width: int, height: int, format: int, x: int, y: int) returns (px: seq<Rgb>)
    requires 2 <= format <= 4 && 0 <= x < width && 0 <= y < height && width * height * format <= |src|
    ensures px == Tile(src, width, height, format, x, y)
  {
    var tile := new Rgb[64](_ => Rgb(0, 0, 0));
    for offY := 0 to 8
      invariant forall i :: 0 <= i < 8 * offY ==> tile[i] == Tile(src, width, height, format, x, y)[i]
    {
      for offX := 0 to 8
        invariant forall i :: 0 <= i < 8 * offY + offX ==> tile[i] == Tile(src, width, height, format, x, y)[i]
      {
        var blockIndex := offY * 8 + offX;
        var col := x + offX;
        var row := y + offY;
        var srcIndex := ((row * width) + col) * format;
        if row >= height {
          srcIndex := srcIndex - (width * (row - height + 1)) * format;
        }
        if col >= width {
          srcIndex := srcIndex - (col - width + 1) * format;
        }
        assert srcIndex == SourceIndex(x, y, offX, offY, width, height, format);
        SourceIndexClamp(x, y, offX, offY, width, height, format);
        var p;
        if format == 2 {
          p := Unpack565(src[srcIndex], src[srcIndex + 1]);
        } else {
          p := Rgb(src[srcIndex], src[srcIndex + 1], src[srcIndex + 2]);
        }
        DivModUnique(blockIndex, 8, offY, offX);
        tile[blockIndex] := p;
      }
    }
    px := tile[..];
  }

  /** The four default specifications, expanded from zero tables, in the state's order. */
  function DefaultTables(): seq<HuffTable>
  {
    LumaDcSized();
    LumaAcSized();
    ChromaDcSized();
    ChromaAcSized();
    [Expand(LumaDcBits, LumaDcVals), Expand(LumaAcBits, LumaAcVals),
     Expand(ChromaDcBits, ChromaDcVals), Expand(ChromaAcBits, ChromaAcVals)]
  }

  /** The default tables give a code to everything a baseline block can send. */
  lemma DefaultTablesReady()
    ensures TablesReady(DefaultTables())
  {
    hide Expand, DcReady, AcReady, Total, Pow2;
    LumaDcReady();
    LumaAcReady();
    ChromaDcReady();
    ChromaAcReady();
  }

  /** Expanding the default specifications onto zero tables gives the default tables. */
  lemma DefaultsExpanded(e: seq<HuffTable>)
    requires SpecsReady(DefaultHtBits, DefaultHtVals) && |e| == 4
    requires forall i :: 0 <= i < 4 ==> e[i] == ExpandOnto(BlankTable(), DefaultHtBits[i], DefaultHtVals[i])
    ensures e == DefaultTables()
  {
    hide Expand, ExpandOnto, Total, Scatter, Sizes, Codes, Zero256;
    LumaDcSized();
    LumaAcSized();
    ChromaDcSized();
    ChromaAcSized();
    assert e[0] == Expand(LumaDcBits, LumaDcVals);
    assert e[1] == Expand(LumaAcBits, LumaAcVals);
    assert e[2] == Expand(ChromaDcBits, ChromaDcVals);
    assert e[3] == Expand(ChromaAcBits, ChromaAcVals);
  }

  /**
   * The file tje_encode_with_func hands to the callback for a quality in
   * 1..3: the tier tables, the default Huffman tables, and the scan of the
   * image under them.
   */
  ghost function EncodedFile(quality: int, img: Image, transform: Transform): seq<uint8>
    requires 1 <= quality <= 3 && Fits(img) && Baseline(transform)
  {
    var luma := TierTable(QtLumaFromSpec, quality);
    var chroma := TierTable(QtChromaFromPaper, quality);
    DefaultSpecsReady();
    DefaultTablesReady();
    JpegFile(img.width, img.height, luma, chroma, DefaultHtBits, DefaultHtVals,
      ScanBits(img, Coding(transform, Divisors(luma), Divisors(chroma), DefaultTables())))
  }

  /**
   * tje_encode_with_func: rejects a quality outside 1..3 before anything is
   * written; otherwise fills the quantization tables of that level into a
   * zero state, expands the default Huffman tables and runs
   * tjei_encode_main. `output` is everything the callback received.
   */
  method EncodeWithFunc(quality: int, width: int, height: int, format: int, src: seq<uint8>, transform: Transform)
    returns (result: int, output: seq<uint8>)
    requires Baseline(transform)
    requires Fits(Image(src, width, height, format)) || !Accepted(width, height, format)
    ensures result == 0 || result == 1
    ensures result == 1 <==> 1 <= quality <= 3 && Accepted(width, height, format)
    ensures output == EncoderOutput(quality, Image(src, width, height, format), transform)
  {
    hide Prepared, EncodedFile, JpegFile, Headers, ScanBits, Divisors, TierTable, DefaultTables, HuffSpecs, TablesReady, CodingReady, Fits, Baseline;
    if quality < 1 || quality > 3 {
      return 0, [];
    }
    var state := NewState(quality);
    ghost var img := Image(src, width, height, format);
    PreparedReady(state, quality);
    if Accepted(width, height, format) {
      PreparedFile(state, quality, img, transform);
    }
    result := state.EncodeMain(src, width, height, format, transform);
    output := state.sink;
  }

  /**
   * The set-up part of tje_encode_with_func: a zero state with the
   * quantization tables of a quality level in 1..3 and the default Huffman
   * tables expanded.
   */
  method NewState(quality: int) returns (state: State)
    requires 1 <= quality <= 3
    ensures fresh(state) && fresh(state.outputBuffer) && Prepared(state, quality)
  {
    hide Expand, ExpandOnto, Scatter, Sizes, Codes, Total, Zero256, Pow2, TierTable, DefaultTables;
    state := new State();
    state.SetQuality(quality);
    state.HuffExpand();
    DefaultsExpanded(state.ehuff);
    state.NothingWritten();
  }

  /**
   * The state tje_encode_with_func hands to tjei_encode_main: nothing
   * written, the quantization tables of the quality level, and the default
   * Huffman specifications with their expanded tables.
   */
  ghost predicate Prepared(state: State, quality: int)
    reads state, state.outputBuffer, state.qtLuma, state.qtChroma
  {
    && 1 <= quality <= 3 && state.Valid() && state.Written() == []
    && TierTables(state.qtLuma[..], state.qtChroma[..], quality)
    && DefaultHuffman(state.htBits, state.htVals, state.ehuff)
  }

  /** The default Huffman specifications and their expanded tables. */
  ghost predicate DefaultHuffman(bits: seq<seq<uint8>>, vals: seq<seq<uint8>>, ehuff: seq<HuffTable>)
  {
    bits == DefaultHtBits && vals == DefaultHtVals && ehuff == DefaultTables()
  }

  /** The quantization tables of the quality level. */
  ghost predicate TierTables(luma: seq<uint8>, chroma: seq<uint8>, quality: int)
    requires 1 <= quality <= 3
  {
    QtLengths();
    luma == TierTable(QtLumaFromSpec, quality) && chroma == TierTable(QtChromaFromPaper, quality)
  }

  /** A prepared state meets what tjei_encode_main requires of its state. */
  lemma PreparedReady(state: State, quality: int)
    requires Prepared(state, quality)
    ensures state.Valid() && state.Written() == [] && HuffSpecs(state.htBits, state.htVals) && TablesReady(state.ehuff)
  {
    hide DefaultTables, Expand, TierTable;
    DefaultSpecsReady();
    DefaultTablesReady();
  }

  /**
   * What the callback has received when tje_encode_with_func returns: the
   * encoded file when the quality, the size and the format are accepted,
   * and nothing otherwise.
   */
  ghost function EncoderOutput(quality: int, img: Image, transform: Transform): seq<uint8>
  {
    if 1 <= quality <= 3 && Accepted(img.width, img.height, img.format) && Fits(img) && Baseline(transform)
    then EncodedFile(quality, img, transform)
    else []
  }

  /** From a prepared state, the file tjei_encode_main writes is the encoded file of the quality level. */
  lemma PreparedFile(state: State, quality: int, img: Image, transform: Transform)
    requires Prepared(state, quality) && Fits(img) && Baseline(transform)
    ensures HuffSpecs(state.htBits, state.htVals) && state.qtLuma.Length == 64 && state.qtChroma.Length == 64
    ensures CodingReady(Coding(transform, Divisors(state.qtLuma[..]), Divisors(state.qtChroma[..]), state.ehuff))
    ensures EncodedFile(quality, img, transform) == JpegFile(img.width, img.height, state.qtLuma[..], state.qtChroma[..],
      state.htBits, state.htVals, ScanBits(img, Coding(transform, Divisors(state.qtLuma[..]), Divisors(state.qtChroma[..]), state.ehuff)))
  {
    hide DefaultTables, Expand, TierTable;
    DefaultSpecsReady();
    DefaultTablesReady();
  }

  /**
   * tje_jpeg_encode: quality 1 on an RGB565 image; 0 when the encoder
   * accepted it, with the file in the output buffer, and -1 with an empty
   * output otherwise.
   */
  method JpegEncode(rgb565: seq<uint8>, width: int, height: int, transform: Transform) returns (ret: int, out: seq<uint8>)
    requires Baseline(transform) && (Fits(Image(rgb565, width, height, 2)) || width > 0xFFFF || height > 0xFFFF)
    ensures ret == 0 || ret == -1
    ensures ret == 0 <==> width <= 0xFFFF && height <= 0xFFFF
    ensures out == EncoderOutput(1, Image(rgb565, width, height, 2), transform)
  {
    hide EncodedFile, Fits, Baseline;
    var err;
    err, out := EncodeWithFunc(1, width, height, 2, rgb565, transform);
    if err == 1 {
      return 0, out;
    }
    out := [];
    ret := -1;
  }
}

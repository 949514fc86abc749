# Tiny JPEG encoder core, UYVY rotation and row mirror in Dafny

This project models three pieces of a small embedded imaging library and proves properties of the models.

- **Integer core of the baseline JPEG encoder** (`jpeg/tiny_jpeg.h`), following ITU-T T.81 (ISO/IEC 10918-1). It covers:
  - the staging output buffer in front of the write callback (`tjei_write`);
  - the big-endian word helper and the DQT/DHT segment writers;
  - the canonical Huffman table builders: code lengths, codes and the symbol-indexed tables;
  - the VLI size category;
  - the bit writer with 0xFF/0x00 byte stuffing;
  - the entropy half of the per-block coder: the DC difference, AC runs with ZRL and EOB, and the zig-zag store;
  - the tile walk of `tjei_encode_main` with edge replication;
  - the fixed segment order SOI, APP0, COM, DQT×2, SOF0, DHT×4, SOS, scan, pad, EOI;
  - the quality tiers of `tje_encode_with_func`;
  - the return codes of `tje_jpeg_encode`.
- **`yuv422_uyvy_rotate_clockwise_90`** (`yuv/yuv422_rotation.c`): a 90° clockwise rotation of a UYVY buffer. It copies 4-byte groups and swaps one luma byte between the two output rows a column group produces.
- **`grb565_mirror` and `SWAP_Y`** (`rgb/rgb565_mirror.c`): an in-place reversal of the 4-byte words of every row. Each moved word has its bytes 1 and 3 exchanged.

## Modules

The modules follow the structure of the C code.

| Module | What it holds |
|---|---|
| `Arith` | Arithmetic helpers. |
| `BitStream` | Bits, most significant first; byte packing; byte stuffing and its inverse. |
| `Vli` | `tjei_calculate_variable_length_int` and T.81's EXTEND decoding. |
| `Huffman` | The canonical code of Annex C, Kraft's inequality, and the three table-building loops. |
| `Accumulator` | The 32-bit bit buffer of `tjei_write_bits`. |
| `EntropyCoding` | The DC/AC tokens of a block, their bits, and a decoder that inverts them. |
| `JpegTables` | The constant tables of `tiny_jpeg.h` and what they provide. |
| `Segments` | Header segments as explicit big-endian byte sequences, and a marker-level parse of the produced file. |
| `Permutation` | Multisets under an index map. |
| `Scan` | The tile walk, the source index clamp, RGB565 unpacking and the block stream of a whole image. |
| `Quality` | The three quantization tiers. |
| `Encoder` | See below. |
| `Rotation` | The rotation. |
| `Mirror` | The mirror. |

`Encoder` holds `TJEState` as the class `State`, and the procedures that change it.
- The write callback is the field `sink`, to which every flush appends. `Written()` is `sink` followed by the bytes still staged.
- The bit-level procedures keep the predicate `Emitted(prefix, sent, bitbuffer, location)`. It says three things:
  - the output is `prefix` followed by the stuffed whole bytes of the bits `sent`;
  - the accumulator holds the remaining fewer-than-8 bits;
  - the output buffer invariant holds.
- Methods are proved against functions: `JpegFile`, `ScanBits`, `BlockBits` and `Rotated` / `Mirrored`. Those functions are then tied by lemmas to independent statements:
  - a decoder for the AC tokens and for EXTEND;
  - a marker-level parse of the file;
  - a byte-by-byte source map;
  - multiset equality;
  - involution.

## Model

| member | source | states |
|---|---|---|
| Vli.CalculateVariableLengthInt | jpeg/tiny_jpeg.h:327-339 | for a nonzero value the size is the category (bit length of the magnitude) and the bits are the T.81 additional bits; for 0 the size is 1 and the bits 0; the bits always fit in `size` bits |
| Vli.CategoryBounds | jpeg/tiny_jpeg.h:329-337 | category 0 exactly for value 0; otherwise 2^(c-1) <= abs(v) < 2^c |
| Vli.AdditionalBitsRange | jpeg/tiny_jpeg.h:329-338 | the additional bits fit in c bits, with the top bit set for positive values and clear for negative ones |
| Vli.ExtendAdditionalBits | jpeg/tiny_jpeg.h:327-339 | decoding category and additional bits with T.81's EXTEND gives back the value: the VLI code is invertible |
| Vli.BitLengthBounds | jpeg/tiny_jpeg.h:334-337 | the counting loop's bit length n of a positive number x satisfies 2^(n-1) <= x < 2^n |
| Vli.CategoryAtMost | jpeg/tiny_jpeg.h:517-518 | a value of magnitude below 2^n has category at most n (the bound asserted for AC values) |
| BitStream.ValueOfBits | jpeg/tiny_jpeg.h:343-347 | reading back the n bits written for v gives v mod 2^n (only the low `num_bits` bits count) |
| BitStream.BitsOfValue | jpeg/tiny_jpeg.h:343-347 | writing the value of a bit string in its own width gives the same bits back |
| BitStream.BitsOfConcat | jpeg/tiny_jpeg.h:347 | placing b below a shifted left by n bits appends b's n bits after a's bits |
| BitStream.SplitBits | jpeg/tiny_jpeg.h:350-356 | the bits of v split into those of its top part and of its low n bits |
| BitStream.BytesBitsConcat | jpeg/tiny_jpeg.h:349-358 | the bits of a byte sequence distribute over concatenation |
| BitStream.PackBytesBits | jpeg/tiny_jpeg.h:349-358 | packing the bits of bytes gives the bytes back |
| BitStream.BitsPackBytes | jpeg/tiny_jpeg.h:349-358 | the bits of packed bytes are the bits packed |
| BitStream.BitsOfInjective | jpeg/tiny_jpeg.h:343-347 | distinct values below 2^n have distinct n-bit codes |
| BitStream.PackBytesSnoc | jpeg/tiny_jpeg.h:350-351 | emitting one more whole byte appends that byte |
| BitStream.StuffOne | jpeg/tiny_jpeg.h:350-355 | one emitted byte is followed by 0x00 exactly when it is 0xFF |
| BitStream.StuffConcat | jpeg/tiny_jpeg.h:349-358 | stuffing distributes over concatenation, so bytes are stuffed one at a time |
| BitStream.UnstuffStuff | jpeg/tiny_jpeg.h:352-355 | removing the 0x00 after every 0xFF restores the bytes: nothing else is inserted |
| BitStream.StuffedFFThenZero | jpeg/tiny_jpeg.h:352-355 | in stuffed data every 0xFF is immediately followed by 0x00 |
| Accumulator.InsertBits | jpeg/tiny_jpeg.h:345-348 | or-ing `bits << (32 - nloc)` into the buffer appends the low num_bits bits of `bits` to the pending bits, with location + num_bits <= 32 |
| Accumulator.InsertValue | jpeg/tiny_jpeg.h:347 | the new buffer stays below 2^32 and keeps zeros below the pending bits |
| Accumulator.PopByte | jpeg/tiny_jpeg.h:350-357 | with at least 8 pending bits, the top byte followed by the pending bits of the shifted buffer are the old pending bits |
| Accumulator.DrainingPop | jpeg/tiny_jpeg.h:349-358 | one turn of the output loop keeps "output = prefix + stuffed whole bytes, buffer = the rest" |
| Accumulator.StuffedSnoc | jpeg/tiny_jpeg.h:350-355 | the stuffed output of the bits so far plus a byte's bits is the old stuffed output plus that byte stuffed |
| Huffman.SizesShape | jpeg/tiny_jpeg.h:279-289 | the code length list has lengths 1..16, is nondecreasing and lists length L exactly bits[L-1] times |
| Huffman.SizesRange | jpeg/tiny_jpeg.h:282-285 | every listed length is between 1 and the number of counts read |
| Huffman.SizesOrdered | jpeg/tiny_jpeg.h:282-285 | the lengths are nondecreasing |
| Huffman.SizesCounts | jpeg/tiny_jpeg.h:282-285 | length L occurs exactly bits[L-1] times |
| Huffman.GetCodeLengths | jpeg/tiny_jpeg.h:279-289 | the array holds the length list followed by a 0 terminator at index Σbits |
| Huffman.CodeRecurrence | jpeg/tiny_jpeg.h:291-309 | the first code is 0; each next code is the previous one plus 1, shifted left by the growth in length (plus 1 alone within a length) |
| Huffman.CodeGrowth | jpeg/tiny_jpeg.h:304-307 | a later code is at least the earlier code plus 1 shifted by the length difference |
| Huffman.CodesIncrease | jpeg/tiny_jpeg.h:291-309 | the codes are strictly increasing |
| Huffman.CodeFits | jpeg/tiny_jpeg.h:291-309 | under Kraft's inequality every code fits in its length |
| Huffman.PrefixFree | jpeg/tiny_jpeg.h:291-309 | under Kraft's inequality no code is a prefix of a later code |
| Huffman.SizesKraft | jpeg/tiny_jpeg.h:279-289 | the Kraft sum of the length list is the one the counts give |
| Huffman.SizesComplete | jpeg/tiny_jpeg.h:279-309 | counts that satisfy Kraft's inequality give an ordered length list that does too |
| Huffman.GetCodes | jpeg/tiny_jpeg.h:291-309 | entry k of the array is the canonical code of entry k of the length list, for k below the count; the entries from the count on are unchanged |
| Huffman.ScatterLookup | jpeg/tiny_jpeg.h:311-325 | a listed value's table entry comes from one of its positions; an unlisted value's entry is untouched |
| Huffman.ScatterDistinct | jpeg/tiny_jpeg.h:319-323 | when values are distinct, `ehuff[huffval[k]]` receives entry k |
| Huffman.ScatterIsLast | jpeg/tiny_jpeg.h:319-324 | a value listed several times keeps the entry of its last position |
| Huffman.GetExtended | jpeg/tiny_jpeg.h:311-325 | the size and code tables are the old ones with each listed value's entry scattered in |
| Huffman.ExpandEntry | jpeg/tiny_jpeg.h:560-573 | each listed value gets the length and canonical code of its (last) position |
| Huffman.ExpandCovers | jpeg/tiny_jpeg.h:560-573 | every listed value gets a code of 1..16 bits that fits in its length |
| EntropyCoding.ExpandSound | jpeg/tiny_jpeg.h:560-573 | every entry of an expanded table is a code of at most 16 bits that fits in its length |
| EntropyCoding.LastNonZero | jpeg/tiny_jpeg.h:498-503 | the index found is below 64, holds a nonzero value when positive, and every AC index after it is zero |
| EntropyCoding.LastNonZeroBelow | jpeg/tiny_jpeg.h:498-503 | the downward search below n finds the last nonzero AC index below n, or 0 |
| EntropyCoding.AcRoundTrip | jpeg/tiny_jpeg.h:498-530 | decoding the AC tokens of a block (runs, ZRL, EOB) gives back coefficients 1..63 |
| EntropyCoding.DecodeAcTokens | jpeg/tiny_jpeg.h:505-530 | from any position inside a zero run, the tokens decode to the rest of the block |
| EntropyCoding.DecodeZrls | jpeg/tiny_jpeg.h:510-512 | n ZRL tokens decode to 16n zeros |
| EntropyCoding.ZrlForSixteenZeros | jpeg/tiny_jpeg.h:507-513 | 16 more zeros before a nonzero value cost exactly one more ZRL |
| EntropyCoding.TrailingZerosEob | jpeg/tiny_jpeg.h:528-530 | zeros through index 63 give exactly one EOB |
| EntropyCoding.EobExactly | jpeg/tiny_jpeg.h:498-530 | EOB is sent exactly when the last nonzero AC index is not 63, it is the last token, and an all-zero AC part gives just EOB |
| EntropyCoding.EobShape | jpeg/tiny_jpeg.h:505-530 | from any position, EOB occurs iff index 63 is zero, and then only as the last token |
| EntropyCoding.ZeroAdvance | jpeg/tiny_jpeg.h:507-513 | one turn of the zero loop keeps "tokens sent + tokens left = the block's tokens", sending a ZRL when the count reaches 16 |
| EntropyCoding.NonzeroToken | jpeg/tiny_jpeg.h:515-525 | at a nonzero coefficient with a run below 16, the next token is (run, value) |
| EntropyCoding.AcTokensNonzero | jpeg/tiny_jpeg.h:505-525 | a run of r zeros before a nonzero value is r/16 ZRLs then the token (r mod 16, value) |
| EntropyCoding.TokensInRange | jpeg/tiny_jpeg.h:517-522 | with AC categories at most 10, every token has run < 16, category 1..10 and a symbol below 256, and no ZRL is followed by EOB or the block's end |
| EntropyCoding.PrefixWellFormed | jpeg/tiny_jpeg.h:507-525 | ZRLs before a well-formed run token keep the token list well formed |
| EntropyCoding.BlockRoundTrip | jpeg/tiny_jpeg.h:488-530 | a block's bits are the code of the DC difference's category, its additional bits, then the codes of the AC tokens; decoding that category, those bits and those tokens against the previous DC value gives back all 64 coefficients of the block |
| EntropyCoding.DcRoundTrip | jpeg/tiny_jpeg.h:488-496 | the DC category and additional bits, decoded against the predictor, give back du[0] |
| EntropyCoding.TokensBitsConcat | jpeg/tiny_jpeg.h:505-530 | the bits of a token list distribute over concatenation |
| JpegTables.ZigZagPermutation | jpeg/tiny_jpeg.h:125-135 | `tjei_zig_zag` is the anti-diagonal order of an 8×8 block, a permutation of 0..63 with an explicit inverse |
| JpegTables.LumaDcSpec | jpeg/tiny_jpeg.h:87-88 | 12 values announced and listed; Kraft sum 65408 <= 2^16 |
| JpegTables.ChromaDcSpec | jpeg/tiny_jpeg.h:89-90 | 12 values announced and listed; Kraft sum 65504 <= 2^16 |
| JpegTables.LumaAcSpec | jpeg/tiny_jpeg.h:91-106 | 162 values announced and listed; Kraft sum 65535 <= 2^16 |
| JpegTables.ChromaAcSpec | jpeg/tiny_jpeg.h:108-123 | 162 values announced and listed; Kraft sum 65535 <= 2^16 |
| JpegTables.LumaAcListed | jpeg/tiny_jpeg.h:93-106 | every baseline AC symbol (EOB, ZRL, run<<4 with category 1..10) is in the luma AC values |
| JpegTables.ChromaAcListed | jpeg/tiny_jpeg.h:110-123 | every baseline AC symbol is in the chroma AC values |
| JpegTables.TokenSymbols | jpeg/tiny_jpeg.h:520 | the symbol of a well-formed token is a baseline AC symbol |
| JpegTables.LumaDcReady | jpeg/tiny_jpeg.h:87-88 | the expanded luma DC table codes every category 0..11 |
| JpegTables.ChromaDcReady | jpeg/tiny_jpeg.h:89-90 | the expanded chroma DC table codes every category 0..11 |
| JpegTables.LumaAcReady | jpeg/tiny_jpeg.h:91-106 | the expanded luma AC table codes every baseline AC symbol |
| JpegTables.ChromaAcReady | jpeg/tiny_jpeg.h:108-123 | the expanded chroma AC table codes every baseline AC symbol |
| JpegTables.DcReadyFrom | jpeg/tiny_jpeg.h:560-573 | a Kraft-valid specification listing 0..11 expands to a table coding every DC category |
| JpegTables.AcReadyFrom | jpeg/tiny_jpeg.h:560-573 | a Kraft-valid specification listing every AC symbol expands to a table coding them all |
| JpegTables.DefaultQtAtLeastTen | jpeg/tiny_jpeg.h:63-85 | both base quantization tables have 64 entries, each at least 10 |
| Segments.BeWordRoundTrip | jpeg/tiny_jpeg.h:137-145 | the two bytes of `tjei_be_word` are the high byte then the low byte: reading them back gives the word, and every byte pair is some word's |
| Segments.MarkerWord | jpeg/tiny_jpeg.h:137-145 | the big-endian word 0xFFxx is the marker 0xFF, xx |
| Segments.Ascii | jpeg/tiny_jpeg.h:147-148 | the identifier and comment strings are emitted as their character codes |
| Segments.SegmentLengths | jpeg/tiny_jpeg.h:152-207 | APP0, COM, both DQTs, SOF0 and SOS are each a marker followed by a length field equal to the rest of the segment plus 2 |
| Segments.DhtLength | jpeg/tiny_jpeg.h:262-276 | a DHT segment's length field is 2 + 1 + 16 + the number of values, the bytes that follow it plus 2 |
| Segments.SpecDhtLength | jpeg/tiny_jpeg.h:674-677 | each of the four DHT segments is length-consistent |
| Segments.Padded | jpeg/tiny_jpeg.h:764-766 | padding appends fewer than 8 zero bits to reach a whole byte |
| Segments.PaddedByLocation | jpeg/tiny_jpeg.h:764-766 | with `location` bits pending, the pad writes 8 - location zero bits, and nothing when location is 0 |
| Segments.StuffedDataEnds | jpeg/tiny_jpeg.h:352-355 | in stuffed data followed by a marker, the first 0xFF not followed by 0x00 is the marker: the scan data ends where the EOI begins |
| Segments.SkipSegment | jpeg/tiny_jpeg.h:627-694 | a length-consistent segment is read as its marker and skipped whole |
| Segments.WalkSegments | jpeg/tiny_jpeg.h:627-677 | the SOI and nine header segments parse as their nine markers in order |
| Segments.ScanWalk | jpeg/tiny_jpeg.h:679-769 | the SOS header, stuffed scan data and EOI parse as SOS, the data, EOI |
| Segments.FileLayout | jpeg/tiny_jpeg.h:627-776 | the produced file parses as SOI, APP0, COM, DQT, DQT, SOF0, DHT×4, SOS, the stuffed padded scan, EOI |
| Scan.SourceIndexClamp | jpeg/tiny_jpeg.h:700-712 | the adjusted source index is that of (min(row, height-1), min(col, width-1)), and it lies inside the image |
| Scan.Unpack565RoundTrip | jpeg/tiny_jpeg.h:726-731 | the 5/6/5 unpacking (low five bits to r) is invertible, with r and b multiples of 8 and g of 4 |
| Scan.DivisorsMatchDqt | jpeg/tiny_jpeg.h:619-652 | the divisor at natural position ScanOrder[k] is the DQT's entry k |
| Scan.ZigZagOrderPlaces | jpeg/tiny_jpeg.h:485 | the coefficient at natural position i is stored at du[zig_zag[i]]; the store is a permutation keeping DC at 0 |
| Scan.CodedBitsOrder | jpeg/tiny_jpeg.h:479-530 | a block's bits are those of its zig-zag-stored coefficients |
| Scan.QuantizedInRange | jpeg/tiny_jpeg.h:517-518 | quantized AC values of baseline range have category at most 10 after the zig-zag store |
| Scan.BlockStreamTriple | jpeg/tiny_jpeg.h:744-758 | the stream after a tile's three blocks is the old stream then Y, Cb, Cr bits |
| Scan.McuStep | jpeg/tiny_jpeg.h:698-758 | a tile adds exactly three blocks after the earlier ones and keeps predictors in range |
| Scan.RowStep | jpeg/tiny_jpeg.h:697-759 | a row of tiles is one tile then the rest of the row |
| Scan.RowsStep | jpeg/tiny_jpeg.h:696-760 | the tile rows are one row then the rest |
| Scan.TilesCeiling | jpeg/tiny_jpeg.h:696-697 | stepping by 8 below a limit takes ceil((limit - from) / 8) steps |
| Scan.ScanRowCount | jpeg/tiny_jpeg.h:697-759 | a row adds 3 blocks per tile and keeps the earlier blocks |
| Scan.ScanRowsCount | jpeg/tiny_jpeg.h:696-760 | the rows add 3 blocks per tile of every row |
| Scan.ScanBlockCount | jpeg/tiny_jpeg.h:696-760 | an image has 3·ceil(w/8)·ceil(h/8) blocks |
| Scan.McuChained | jpeg/tiny_jpeg.h:744-758 | each component's block is coded against the DC of that component's previous block |
| Scan.ChainedSnoc | jpeg/tiny_jpeg.h:744-758 | appending a triple coded against the current predictors keeps the chain |
| Scan.ScanRowChained | jpeg/tiny_jpeg.h:697-759 | a row keeps the DC chain |
| Scan.ScanRowsChained | jpeg/tiny_jpeg.h:696-760 | all rows keep the DC chain |
| Scan.ScanPredictors | jpeg/tiny_jpeg.h:600-758 | the first three blocks use predictor 0 and every later block the DC of the block three before it |
| Quality.TierTable | jpeg/tiny_jpeg.h:791-815 | each tier's table has 64 entries, none 0 |
| Quality.TierOrder | jpeg/tiny_jpeg.h:792-811 | tier 3 is all ones, and tier 3 <= tier 2 <= tier 1 entry by entry |
| Quality.DefaultTiers | jpeg/tiny_jpeg.h:798-811 | tier 1 is the base tables, and tier 2 their entries divided by 10 (never 0 because every base entry is at least 10) |
| Encoder.State.constructor | jpeg/tiny_jpeg.h:782 | a zero state: empty buffer, zero tables, nothing sent |
| Encoder.State.Stage | jpeg/tiny_jpeg.h:212-223 | copies min(size, 1023 - count) bytes, and flushes exactly when the count reaches 1023 |
| Encoder.State.Write | jpeg/tiny_jpeg.h:210-228 | what was written grows by exactly `data`, in order; the count stays below 1023 and becomes (old count + data length) mod 1023 |
| Encoder.State.WriteStuffed | jpeg/tiny_jpeg.h:350-355 | a byte is written, followed by 0x00 if it is 0xFF |
| Encoder.State.WriteBits | jpeg/tiny_jpeg.h:341-359 | the stuffed output plus the pending bits grow by the num_bits bits of `bits`, MSB first, with location < 8 on return |
| Encoder.State.WriteCode | jpeg/tiny_jpeg.h:490-530 | a symbol's Huffman code is appended to the bits sent |
| Encoder.State.WriteDc | jpeg/tiny_jpeg.h:488-496 | the DC code of the difference's category, then its additional bits, are appended |
| Encoder.State.WriteAc | jpeg/tiny_jpeg.h:505-530 | the bits of the block's AC tokens are appended |
| Encoder.State.WriteCoefficient | jpeg/tiny_jpeg.h:506-525 | one turn of the outer loop sends a prefix of the block's tokens and advances past the next nonzero index, never past the last one |
| Encoder.State.SkipZeros | jpeg/tiny_jpeg.h:506-514 | the zero loop stops on a nonzero value at or before the last nonzero index, with a count below 16, having sent one ZRL per 16 zeros |
| Encoder.State.WriteMarkerToken | jpeg/tiny_jpeg.h:510-530 | a ZRL or EOB token's code is appended |
| Encoder.State.WriteRun | jpeg/tiny_jpeg.h:515-525 | a (run, value) token's code and additional bits are appended |
| Encoder.State.EncodeAndWriteMcu | jpeg/tiny_jpeg.h:456-532 | the predictor becomes du[0] and the block's DC and AC bits are appended |
| Encoder.State.WriteDqt | jpeg/tiny_jpeg.h:230-242 | appends FF DB, length 67, the table id and the 64 entries |
| Encoder.State.WriteDht | jpeg/tiny_jpeg.h:250-277 | appends FF C4, the length, class shifted by 4 or'd with id, the 16 counts and the listed values |
| Encoder.State.WriteHeaders | jpeg/tiny_jpeg.h:627-694 | appends SOI/APP0, COM, DQT×2, SOF0, DHT×4 and SOS in that order |
| Encoder.State.HuffExpand | jpeg/tiny_jpeg.h:534-574 | selects the default specifications and expands each of the four tables onto the old entries; the buffer is untouched |
| Encoder.State.ExpandTables | jpeg/tiny_jpeg.h:554-573 | expands each of the four specifications onto its table |
| Encoder.ExpandOnto | jpeg/tiny_jpeg.h:560-573 | expanding onto a zero table gives the specification's canonical table |
| Encoder.ExpandTable | jpeg/tiny_jpeg.h:554-573 | counting, code lengths, codes and scatter together give the expanded table |
| Encoder.SpecsReadyOf | jpeg/tiny_jpeg.h:554-561 | four specifications announcing 1..256 values each can be expanded |
| Encoder.DefaultSpecsReady | jpeg/tiny_jpeg.h:544-561 | the default specifications pass the 256-value assertion |
| Encoder.DefaultTablesReady | jpeg/tiny_jpeg.h:544-573 | the default tables code every DC category and AC symbol baseline coding sends |
| Encoder.DefaultsExpanded | jpeg/tiny_jpeg.h:544-573 | expanding the defaults onto a zero state gives the default tables |
| Encoder.State.SetQuality | jpeg/tiny_jpeg.h:791-815 | the two tables become the tier tables of the quality |
| Encoder.State.FillTiers | jpeg/tiny_jpeg.h:793-811 | each entry becomes 1 (tier 3) or base / factor raised to 1 when it is 0 |
| Encoder.State.Flush | jpeg/tiny_jpeg.h:771-774 | the staged bytes are handed on and the count is 0 |
| Encoder.State.EncodeMain | jpeg/tiny_jpeg.h:576-777 | an unsupported format or a side above 0xFFFF returns 0 with nothing written; otherwise returns 1 having sent the whole file, nothing staged |
| Encoder.State.EncodeImage | jpeg/tiny_jpeg.h:619-776 | headers, scan, pad and EOI are sent and flushed |
| Encoder.State.EncodeScan | jpeg/tiny_jpeg.h:696-760 | the bits of every block of the image are emitted, tile rows top to bottom |
| Encoder.State.EncodeRow | jpeg/tiny_jpeg.h:697-759 | a tile row's blocks are emitted and the predictors follow its last tile |
| Encoder.State.EncodeTile | jpeg/tiny_jpeg.h:698-758 | a tile's Y, Cb and Cr blocks are emitted with their own predictors |
| Encoder.State.PadScan | jpeg/tiny_jpeg.h:762-767 | the scan is padded with zero bits to a whole byte and everything is out of the accumulator |
| Encoder.State.FinishScan | jpeg/tiny_jpeg.h:762-776 | pad, EOI and the last flush leave the callback with the prefix, the stuffed padded scan and FF D9 |
| Encoder.State.EmittedLocation | jpeg/tiny_jpeg.h:349-358 | the pending bit count is the number of bits sent modulo 8 |
| Encoder.State.NothingEmitted | jpeg/tiny_jpeg.h:595-596 | an empty accumulator (buffer 0, location 0) has emitted nothing |
| Encoder.State.PaddedWritten | jpeg/tiny_jpeg.h:764-766 | once the bits sent fill whole bytes, everything written is their stuffed bytes |
| Encoder.State.NothingWritten | jpeg/tiny_jpeg.h:782 | an empty sink and buffer mean nothing written |
| Encoder.Place | jpeg/tiny_jpeg.h:479-486 | du[order[i]] receives block[i] for every i |
| Encoder.ZigZagScatter | jpeg/tiny_jpeg.h:479-486 | the stored array is the zig-zag order of the block |
| Encoder.FindLastNonZero | jpeg/tiny_jpeg.h:498-503 | the loop result is the last nonzero AC index, or 0 |
| Encoder.DcCategory | jpeg/tiny_jpeg.h:488-492 | a DC difference of two baseline DC values has category at most 11 |
| Encoder.BatchCount | jpeg/tiny_jpeg.h:220-227 | writing 1023 more bytes causes exactly one more flush and leaves the count as it was |
| Encoder.QuantizerOrder | jpeg/tiny_jpeg.h:619-625 | the pqt loop's divisor order is the DQT read through `tjei_zig_zag` |
| Encoder.ReadTile | jpeg/tiny_jpeg.h:698-732 | the 64 pixels read are those of the tile with edges replicated |
| Encoder.NewState | jpeg/tiny_jpeg.h:782-821 | a fresh state with the quality's tier tables, the default specifications and expanded tables, and nothing written |
| Encoder.PreparedReady | jpeg/tiny_jpeg.h:782-821 | such a state is ready for `tjei_encode_main` |
| Encoder.PreparedFile | jpeg/tiny_jpeg.h:779-823 | from such a state the main routine sends exactly the file of the quality's tables |
| Encoder.EncodeWithFunc | jpeg/tiny_jpeg.h:779-823 | returns 1 iff quality is 1..3 and format and size are accepted, and 0 otherwise; the callback receives the whole file in the first case and nothing in the second |
| Encoder.JpegEncode | jpeg/tiny_jpeg.h:839-855 | returns 0 iff both sides are at most 0xFFFF, else -1; the output is the quality-1 RGB565 file on success and empty (length reset) on failure |
| Rotation.RotateClockwise90 | yuv/yuv422_rotation.c:27-65 | returns `dst`; its first 2·w·h bytes become the rotation of `src` and the bytes after them are unchanged |
| Rotation.RotateGroup | yuv/yuv422_rotation.c:41-61 | one column group fills its two output rows and writes nothing beyond them |
| Rotation.CopyWord | yuv/yuv422_rotation.c:48 | four bytes are copied and nothing else changes |
| Rotation.ExchangeBytes | yuv/yuv422_rotation.c:50-54 | the two bytes are exchanged through the temporary |
| Rotation.EvenStep | yuv/yuv422_rotation.c:45-57 | an even row's copy keeps the filled part and leaves the pair pending |
| Rotation.OddStep | yuv/yuv422_rotation.c:45-57 | an odd row's copy and byte swap complete the pair |
| Rotation.PairFinal | yuv/yuv422_rotation.c:48-54 | after the swap both output words hold their rotated bytes |
| Rotation.AllGroupsDone | yuv/yuv422_rotation.c:40-62 | when every group is filled the written region is the rotation |
| Rotation.RotatedAt | yuv/yuv422_rotation.c:40-62 | each output byte holds its source byte under the index map |
| Rotation.RotatedPair | yuv/yuv422_rotation.c:41-57 | reading rows bottom up, output row 2c gets U_e, Y0_e, V_e, Y0_o and row 2c+1 gets U_o, Y1_e, V_o, Y1_o |
| Rotation.PairAt | yuv/yuv422_rotation.c:45-58 | the four bytes of each output word come from their source bytes |
| Rotation.Decompose | yuv/yuv422_rotation.c:40-62 | every output position belongs to exactly one (group, row, pair, byte) slot |
| Rotation.Compose | yuv/yuv422_rotation.c:40-62 | a slot's position decomposes back into that slot |
| Rotation.LandingTake | yuv/yuv422_rotation.c:40-62 | the source byte of each slot lands back in that slot |
| Rotation.LandingRotSource | yuv/yuv422_rotation.c:40-62 | the landing map inverts the source map: each source byte is copied exactly once |
| Rotation.RotatedPermutes | yuv/yuv422_rotation.c:40-62 | the written region is a permutation of the first 2·w·h source bytes |
| Rotation.OutBound | yuv/yuv422_rotation.c:40-60 | every write of group c lies in its 4·h-byte window inside the first 2·w·h bytes |
| Rotation.InBound | yuv/yuv422_rotation.c:43-61 | every read lies inside the source image |
| Rotation.GroupsSize | yuv/yuv422_rotation.c:40-60 | w/2 groups of 4·h bytes make 2·w·h bytes |
| Mirror.SwapYBytes | rgb/rgb565_mirror.c:2 | on a little-endian word SWAP_Y keeps bytes 0 and 2 and exchanges bytes 1 and 3 |
| Mirror.SwapYSlots | rgb/rgb565_mirror.c:2 | byte i of the result is byte SwapSlot(i) of the word |
| Mirror.SwapSlot | rgb/rgb565_mirror.c:2 | the slot map fixes exactly the even slots |
| Mirror.SwapYWord | rgb/rgb565_mirror.c:2 | SWAP_Y of bytes (b0, b1, b2, b3) is (b0, b3, b2, b1) |
| Mirror.SwapYInvolution | rgb/rgb565_mirror.c:2 | SWAP_Y(SWAP_Y(w)) == w |
| Mirror.WordBytes | rgb/rgb565_mirror.c:12-14 | a word built from four bytes gives them back |
| Mirror.StoreWord | rgb/rgb565_mirror.c:13-14 | a word store writes its four bytes and nothing else |
| Mirror.ExchangeWords | rgb/rgb565_mirror.c:12-14 | two words are exchanged, each through SWAP_Y |
| Mirror.MirrorRows | rgb/rgb565_mirror.c:4-19 | the buffer becomes its mirror |
| Mirror.PairStep | rgb/rgb565_mirror.c:11-16 | one exchange moves the pair (x, y) into place and keeps all earlier ones |
| Mirror.RowDone | rgb/rgb565_mirror.c:11 | once x >= y the row is finished |
| Mirror.AllRowsDone | rgb/rgb565_mirror.c:8-18 | after every row the buffer is the mirror |
| Mirror.NothingMoved | rgb/rgb565_mirror.c:8 | before the loop nothing has moved |
| Mirror.SourceAt | rgb/rgb565_mirror.c:9-17 | byte b of a moved word k comes from byte SwapSlot(b) of word n-1-k; other bytes stay |
| Mirror.MirroredAt | rgb/rgb565_mirror.c:8-17 | each byte of the mirror is its source byte under the map |
| Mirror.MirroredWords | rgb/rgb565_mirror.c:9-17 | for k != n-1-k, word k of a row becomes SWAP_Y of word n-1-k |
| Mirror.MirrorKeeps | rgb/rgb565_mirror.c:8-11 | bytes past the first height rows, the last two bytes of an odd-width row, and the middle word of an odd count stay |
| Mirror.MirrorNarrow | rgb/rgb565_mirror.c:10-11 | width below 2 changes nothing |
| Mirror.MirrorSourceInvolution | rgb/rgb565_mirror.c:10-17 | the source map is its own inverse |
| Mirror.MirrorInvolution | rgb/rgb565_mirror.c:2-18 | mirroring twice restores the buffer |
| Mirror.MirrorPermutes | rgb/rgb565_mirror.c:8-18 | the mirror is a permutation of the buffer's bytes |

## Left out

- Floating point. `tjei_fdct`, the float quantization with `floorf`, the `pqt`/`aan_scales` reciprocals and the RGB to YCbCr coefficients (jpeg/tiny_jpeg.h:361-454, 476-486, 582-583, 619-625, 734-740) are not modelled.
  - They become a `Transform` parameter. It maps a tile, a component and the table's divisors to a natural-order block of integers.
  - Of the transform, only the baseline range of its result is assumed (`Baseline`).
  - The integer parts are kept: the divisor order read through `tjei_zig_zag` (`QuantizerOrder`) and the zig-zag store.
- The write callback and its context are left out; the callback is the `sink` field. `__tje_write_func`'s assertion that the destination has room (jpeg/tiny_jpeg.h:831-837) is left out too, because output capacity is not part of the model.
- `assert` statements of the C code become `requires` clauses or facts proved from them. Examples: `id < 4`, `num_values <= 0xffff`, `256 >= spec_tables_len`, `zero_count < 0x10`, `vli[1] <= 10`, the code-length checks, and `src_index < width*height*format`.
- `tjei_huff_expand` copies the `ht_bits`/`ht_vals` pointers. The model copies the sequences they point to. Likewise, `ehuff` is a sequence of four value tables.
- The 257-entry `ehuffsize` rows are kept as 256 entries, because the 257th is never read.
- Packed-struct layout and host endianness are not modelled: headers are explicit big-endian byte sequences.
- C integer widths are not modelled.
  - Nothing here overflows for the accepted inputs: codes stay below 2^16, the bit buffer below 2^32, and counts are small.
  - The `(uint16_t)` casts are identities on those ranges.
  - `width * height * color_format` and `h * width * 2` are taken as mathematical products; the C code may overflow `int` for images that large.
- Encoder.State.EncodeMain: for a width or height of 0 or less, the C loops run zero times and the model follows that. For an accepted format and size, the model requires `Fits`, that is enough source bytes; the C code reads them without checking. For a rejected format or size it requires nothing of `src`, since the C code returns before reading it. Encoder.EncodeWithFunc and Encoder.JpegEncode require the same.
- Encoder.JpegEncode: the C function also zeroes `*out_jpeg_len` first. The model's output starts empty, so that step has nothing to model.
- Encoder.EncodeWithFunc and Encoder.JpegEncode state their output through `EncoderOutput`: the encoded file when the call succeeds, and the empty sequence otherwise.
- Loops of `tjei_encode_and_write_MCU` and of the rotation are split into their own methods (`SkipZeros` and `FindLastNonZero`; `RotateGroup`). The loop bodies and their order are those of the source.
- Rotation.RotateClockwise90 leaves out several cases:
  - it requires even width and height; odd sizes make the C code read past the last group or leave the last row unpaired;
  - it requires `dst != src`, so an aliased call is not modelled;
  - `uint32_t` overflow of `width << 1` and `height << 2` is not modelled;
  - after the last row, `psrc` is moved before the start of the buffer without being read, and the model keeps no pointer for it.
- Unaligned `uint32_t*` accesses in the rotation and mirror are 4-byte group copies on bytes. The mirror reads words little-endian, as the byte meaning of `SWAP_Y` requires.
- Mirror.MirrorRows: it requires the rows whose words move to lie inside the buffer. Negative `width >> 1` gives no words to move, as in the C code, and the model agrees.
- `demo.c`, the external decoder it drives, and the `I420Scale` interface are not part of this model.

## Notes on the source

- Running out of output space is not an error result. `__tje_write_func` only asserts that the destination has room (jpeg/tiny_jpeg.h:831-837). `tje_jpeg_encode` returns -1 only when `tje_encode_with_func` returns 0. With quality 1 and format RGB565, that happens only when a side exceeds 0xFFFF.
- A width or height of zero or less is not rejected (jpeg/tiny_jpeg.h:615-617 checks only the upper bound). It gives a file with all headers and an empty scan.
- The RGB565 reader takes r from the low five bits and b from the high five (jpeg/tiny_jpeg.h:727-730).
- Despite its name, `grb565_mirror` exchanges bytes 1 and 3 of each moved 4-byte word, as for UYVY data, and does not swap RGB565 pixels.

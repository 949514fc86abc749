/**
 * What tjei_encode_main feeds the entropy coder: the 8x8 tiles of the image
 * in raster order, each read from the source with the last row and column
 * repeated past the image edge, turned into three quantized blocks (Y, Cb,
 * Cr) and coded one after the other with a DC predictor per component.
 *
 * Colour conversion, the forward DCT and quantization work in floating
 * point; they are a parameter of the model (a Transform), of which only the
 * range of its results is assumed.
 */
module Scan {
  import opened Arith
  import opened BitStream
  import opened Vli
  import opened Huffman
  import opened EntropyCoding
  import opened JpegTables
  import opened Permutation

  datatype Rgb = Rgb(r: uint8, g: uint8, b: uint8)

  /** The three components of the scan, in the order they are coded for every tile. */
  datatype Channel = Luma | BlueDifference | RedDifference

  /**
   * src_index of tjei_encode_main: the byte offset of pixel (x + offX,
   * y + offY), pulled back by whole rows when the row is past the bottom and
   * by pixels when the column is past the right edge.
   */
  function SourceIndex(x: int, y: int, offX: int, offY: int, width: int, height: int, format: int): int
  {
    var col := x + offX;
    var row := y + offY;
    var index := ((row * width) + col) * format;
    var index' := if row >= height then index - (width * (row - height + 1)) * format else index;
    if col >= width then index' - (col - width + 1) * format else index'
  }

  /** The last valid coordinate below limit stands in for anything past it. */
  function Clamp(v: int, limit: int): int
  {
    if v >= limit then limit - 1 else v
  }

  /**
   * Edge replication: for a tile inside the image the corrected index is
   * that of the pixel at the clamped row and column, so it always lies in
   * the source.
   */
  lemma SourceIndexClamp(x: int, y: int, offX: int, offY: int, width: int, height: int, format: int)
    requires 0 <= x < width && 0 <= y < height && 0 <= offX < 8 && 0 <= offY < 8 && format >= 1
    ensures SourceIndex(x, y, offX, offY, width, height, format)
            == (Clamp(y + offY, height) * width + Clamp(x + offX, width)) * format
    ensures 0 <= SourceIndex(x, y, offX, offY, width, height, format)
    ensures SourceIndex(x, y, offX, offY, width, height, format) + format <= width * height * format
  {
    var col, row := x + offX, y + offY;
    var r, c := Clamp(row, height), Clamp(col, width);
    assert 0 <= r < height && 0 <= c < width;
    var index := ((row * width) + col) * format;
    var index' := if row >= height then index - (width * (row - height + 1)) * format else index;
    assert index' == (r * width + col) * format by {
      if row >= height {
        assert r == row - (row - height + 1);
        assert (row * width + col) * format - (width * (row - height + 1)) * format
            == ((row - (row - height + 1)) * width + col) * format by {
          LinearRow(row, row - height + 1, width, col, format);
        }
      }
    }
    assert SourceIndex(x, y, offX, offY, width, height, format) == (r * width + c) * format by {
      if col >= width {
        assert (r * width + col) * format - (col - width + 1) * format == (r * width + c) * format by {
          LinearCol(r * width, col, col - width + 1, format);
        }
      }
    }
    assert 0 <= r * width by { MulMonotone(width, 0, r); }
    assert r * width + c + 1 <= height * width by {
      MulMonotone(width, r, height - 1);
      MulComm(width, r);
      MulComm(width, height - 1);
      MulSucc(height - 1, width);
    }
    MulMonotone(format, 0, r * width + c);
    MulComm(format, r * width + c);
    MulMonotone(format, r * width + c + 1, height * width);
    MulComm(format, r * width + c + 1);
    MulComm(format, height * width);
    MulSucc(r * width + c, format);
    MulComm(width, height);
  }

  lemma LinearRow(row: int, d: int, width: int, col: int, format: int)
    ensures (row * width + col) * format - (width * d) * format == ((row - d) * width + col) * format
  {
    assert (row - d) * width == row * width - d * width;
    assert width * d == d * width;
    assert (row * width + col) * format - (d * width) * format == (row * width + col - d * width) * format;
  }

  lemma LinearCol(base: int, col: int, d: int, format: int)
    ensures (base + col) * format - d * format == (base + (col - d)) * format
  {
  }

  /**
   * The RGB565 unpacking of tjei_encode_main, with the masks and shifts
   * written as the arithmetic they perform: the little-endian 16-bit word
   * holds red in bits 0..4, green in bits 5..10 and blue in bits 11..15,
   * each widened to 8 bits by appending zeros.
   */
  function Unpack565(lo: uint8, hi: uint8): (p: Rgb)
  {
    var rgb := hi as nat * 0x100 + lo as nat;
    Rgb(((rgb % 0x20) * 8) as uint8, (((rgb / 0x20) % 0x40) * 4) as uint8, ((rgb / 0x800) * 8) as uint8)
  }

  /** The 16-bit word that a pixel with 5/6/5 significant bits packs into, as (low byte, high byte). */
  function Pack565(p: Rgb): (bytes: (uint8, uint8))
  {
    var rgb := p.r as nat / 8 + (p.g as nat / 4) * 0x20 + (p.b as nat / 8) * 0x800;
    assert rgb < 0x1_0000;
    ((rgb % 0x100) as uint8, (rgb / 0x100) as uint8)
  }

  /**
   * Unpacking loses nothing: packing an unpacked pixel gives back the two
   * source bytes, and the unpacked channels have their low bits clear.
   */
  lemma Unpack565RoundTrip(lo: uint8, hi: uint8)
    ensures Pack565(Unpack565(lo, hi)) == (lo, hi)
    ensures Unpack565(lo, hi).r as nat % 8 == 0 && Unpack565(lo, hi).g as nat % 4 == 0
    ensures Unpack565(lo, hi).b as nat % 8 == 0
  {
    var rgb := hi as nat * 0x100 + lo as nat;
    var r, g, b := rgb % 0x20, (rgb / 0x20) % 0x40, rgb / 0x800;
    assert rgb == r + g * 0x20 + b * 0x800 by {
      DivMod(rgb, 0x20);
      DivMod(rgb / 0x20, 0x40);
      DivDiv(rgb, 0x20, 0x40);
    }
    var p := Unpack565(lo, hi);
    assert p.r as nat / 8 == r && p.g as nat / 4 == g && p.b as nat / 8 == b;
    DivModUnique(rgb, 0x100, hi as nat, lo as nat);
  }

  /** The colour of the pixel at a byte offset, for the three source formats. */
  function Pixel(src: seq<uint8>, index: int, format: int): Rgb
    requires 2 <= format <= 4 && 0 <= index && index + format <= |src|
  {
    if format == 2 then Unpack565(src[index], src[index + 1])
    else Rgb(src[index], src[index + 1], src[index + 2])
  }

  /** The 64 pixels of the tile at (x, y), in row-major order, edges replicated. */
  function Tile(src: seq<uint8>, width: int, height: int, format: int, x: int, y: int): (px: seq<Rgb>)
    requires 2 <= format <= 4 && 0 <= x < width && 0 <= y < height && width * height * format <= |src|
    ensures |px| == 64
  {
    seq(64, i requires 0 <= i < 64 =>
      SourceIndexClamp(x, y, i % 8, i / 8, width, height, format);
      Pixel(src, SourceIndex(x, y, i % 8, i / 8, width, height, format), format))
  }

  /** Colour conversion, forward DCT and quantization of one tile for one component, by the given divisors. */
  type Transform = (seq<Rgb>, Channel, seq<uint8>) -> seq<int>

  /**
   * A quantized block in natural order of the range 8-bit samples give: a
   * DC value in -1024..1023 and AC values of magnitude below 1024 (so of
   * category at most 10).
   */
  ghost predicate Quantized(block: seq<int>)
  {
    |block| == 64 && -1024 <= block[0] <= 1023 && forall i :: 1 <= i < 64 ==> -1023 <= block[i] <= 1023
  }

  ghost predicate Baseline(transform: Transform)
  {
    forall px, ch, div :: Quantized(transform(px, ch, div))
  }

  /**
   * The divisors of the pqt loop: the stored table is indexed through the
   * zig-zag permutation, so entry qt[k] divides the coefficient at natural
   * position ScanOrder[k].
   */
  function Divisors(qt: seq<uint8>): (div: seq<uint8>)
    requires |qt| == 64
    ensures |div| == 64
  {
    ZigZagPermutation();
    seq(64, i requires 0 <= i < 64 => qt[ZigZag[i]])
  }

  /** The table written in DQT is in zig-zag order: its entry k is the divisor of the k-th coefficient of the scan. */
  lemma DivisorsMatchDqt(qt: seq<uint8>)
    requires |qt| == 64
    ensures forall k :: 0 <= k < 64 ==> ScanOrder[k] < 64 && Divisors(qt)[ScanOrder[k]] == qt[k]
  {
    ZigZagPermutation();
  }

  /** `du[tjei_zig_zag[i]] = val`: a block in natural order rearranged into zig-zag order. */
  function ZigZagOrder(block: seq<int>): (du: seq<int>)
    requires |block| == 64
    ensures |du| == 64
  {
    ZigZagPermutation();
    seq(64, k requires 0 <= k < 64 => block[ScanOrder[k]])
  }

  /** Rearranging puts every coefficient at its zig-zag position and loses none. */
  lemma ZigZagOrderPlaces(block: seq<int>)
    requires |block| == 64
    ensures forall i :: 0 <= i < 64 ==> ZigZag[i] < 64 && ZigZagOrder(block)[ZigZag[i]] == block[i]
    ensures ZigZagOrder(block)[0] == block[0]
    ensures multiset(ZigZagOrder(block)) == multiset(block)
  {
    ZigZagPermutation();
    assert ScanOrder[0] == 0;
    forall k, l | 0 <= k < l < 64
      ensures ScanOrder[k] != ScanOrder[l]
    {
      assert ZigZag[ScanOrder[k]] == k && ZigZag[ScanOrder[l]] == l;
    }
    PermutedMultiset(block, ZigZagOrder(block), ScanOrder);
  }

  /** A source image as tjei_encode_main receives it: the bytes, the dimensions and the bytes per pixel. */
  datatype Image = Image(src: seq<uint8>, width: int, height: int, format: int)

  /** A supported format (RGB565, RGB888 or RGBA) whose pixels all lie in the source bytes. */
  ghost predicate Fits(img: Image)
  {
    && 2 <= img.format <= 4
    && (img.width > 0 && img.height > 0 ==> img.width * img.height * img.format <= |img.src|)
  }

  /**
   * How blocks are coded: the transform, the divisors of the luma and
   * chroma tables, and the four expanded Huffman tables in the order luma
   * DC, luma AC, chroma DC, chroma AC.
   */
  datatype Coding = Coding(transform: Transform, divLuma: seq<uint8>, divChroma: seq<uint8>, tables: seq<HuffTable>)

  ghost predicate CodingReady(c: Coding)
  {
    && Baseline(c.transform)
    && |c.tables| == 4
    && DcReady(c.tables[0]) && AcReady(c.tables[1]) && DcReady(c.tables[2]) && AcReady(c.tables[3])
  }

  /** A block as it is handed to the entropy coder: its coefficients in natural order, the predictor and the tables. */
  datatype CodedBlock = CodedBlock(values: seq<int>, pred: int, dc: HuffTable, ac: HuffTable)

  /** The bits tjei_encode_and_write_MCU sends for a block. */
  function CodedBits(b: CodedBlock): seq<bool>
  {
    if |b.values| == 64 then BlockBits(ZigZagOrder(b.values), b.pred, b.dc, b.ac) else []
  }

  /** The bits of a block are those of its coefficients in zig-zag order. */
  lemma CodedBitsOrder(b: CodedBlock, du: seq<int>)
    requires |b.values| == 64 && du == ZigZagOrder(b.values)
    ensures CodedBits(b) == BlockBits(du, b.pred, b.dc, b.ac)
  {
  }

  /** The bits of a sequence of blocks, one after the other. */
  function BlockStream(blocks: seq<CodedBlock>): seq<bool>
  {
    if blocks == [] then [] else BlockStream(blocks[..|blocks| - 1]) + CodedBits(blocks[|blocks| - 1])
  }

  /** The bits of three more blocks follow those of the blocks before them, in order. */
  lemma BlockStreamTriple(blocks: seq<CodedBlock>, b0: CodedBlock, b1: CodedBlock, b2: CodedBlock)
    ensures BlockStream(blocks + [b0, b1, b2]) == BlockStream(blocks) + CodedBits(b0) + CodedBits(b1) + CodedBits(b2)
  {
    var one, two, all := blocks + [b0], blocks + [b0, b1], blocks + [b0, b1, b2];
    assert one[..|blocks|] == blocks && two[..|one|] == one && all[..|two|] == two;
    assert BlockStream(one) == BlockStream(blocks) + CodedBits(b0);
    assert BlockStream(two) == BlockStream(one) + CodedBits(b1);
    assert BlockStream(all) == BlockStream(two) + CodedBits(b2);
  }

  /** The blocks coded so far and the DC predictors pred_y, pred_b and pred_r. */
  datatype ScanState = ScanState(blocks: seq<CodedBlock>, predY: int, predCb: int, predCr: int)

  /** A DC predictor that baseline blocks can leave behind. */
  ghost predicate PredictorsInRange(st: ScanState)
  {
    -1024 <= st.predY <= 1023 && -1024 <= st.predCb <= 1023 && -1024 <= st.predCr <= 1023
  }

  /**
   * One MCU: the tile at (x, y) coded as a Y block with the luma tables,
   * then a Cb and a Cr block with the chroma tables, each against the DC
   * value of the previous block of its component, which it then replaces.
   */
  function McuStep(st: ScanState, img: Image, c: Coding, x: int, y: int): (st': ScanState)
    requires Fits(img) && CodingReady(c) && 0 <= x < img.width && 0 <= y < img.height
    ensures |st'.blocks| == |st.blocks| + 3 && st'.blocks[..|st.blocks|] == st.blocks
    ensures PredictorsInRange(st')
  {
    var px := Tile(img.src, img.width, img.height, img.format, x, y);
    var luma := c.transform(px, Luma, c.divLuma);
    var blue := c.transform(px, BlueDifference, c.divChroma);
    var red := c.transform(px, RedDifference, c.divChroma);
    assert Quantized(luma) && Quantized(blue) && Quantized(red);
    ScanState(st.blocks + [CodedBlock(luma, st.predY, c.tables[0], c.tables[1]),
                           CodedBlock(blue, st.predCb, c.tables[2], c.tables[3]),
                           CodedBlock(red, st.predCr, c.tables[2], c.tables[3])],
              luma[0], blue[0], red[0])
  }

  /** The MCUs of the tile row at y from column x on, every 8 pixels while x < width. */
  function ScanRow(st: ScanState, img: Image, c: Coding, x: int, y: int): (st': ScanState)
    requires Fits(img) && CodingReady(c) && 0 <= x && 0 <= y < img.height
    decreases img.width - x
  {
    if x >= img.width then st else ScanRow(McuStep(st, img, c, x, y), img, c, x + 8, y)
  }

  /** One MCU of a row: the rest of the row goes on from the state after it. */
  lemma RowStep(st: ScanState, img: Image, c: Coding, x: int, y: int)
    requires Fits(img) && CodingReady(c) && 0 <= x < img.width && 0 <= y < img.height
    ensures ScanRow(st, img, c, x, y) == ScanRow(McuStep(st, img, c, x, y), img, c, x + 8, y)
    ensures PredictorsInRange(McuStep(st, img, c, x, y))
  {
  }

  /** The tile rows from y on, every 8 pixels while y < height. */
  function ScanRows(st: ScanState, img: Image, c: Coding, y: int): (st': ScanState)
    requires Fits(img) && CodingReady(c) && 0 <= y
    decreases img.height - y
  {
    if y >= img.height then st else ScanRows(ScanRow(st, img, c, 0, y), img, c, y + 8)
  }

  /** One tile row of the scan: the remaining rows go on from the state after it. */
  lemma RowsStep(st: ScanState, img: Image, c: Coding, y: int)
    requires Fits(img) && CodingReady(c) && 0 <= y < img.height && PredictorsInRange(st)
    ensures ScanRows(st, img, c, y) == ScanRows(ScanRow(st, img, c, 0, y), img, c, y + 8)
    ensures PredictorsInRange(ScanRow(st, img, c, 0, y))
  {
    ScanRowCount(st, img, c, 0, y);
  }

  const Start := ScanState([], 0, 0, 0)

  /** The blocks of the whole image, starting with all predictors at 0. */
  function ScanBlocks(img: Image, c: Coding): seq<CodedBlock>
    requires Fits(img) && CodingReady(c)
  {
    ScanRows(Start, img, c, 0).blocks
  }

  /** The entropy-coded bits of the whole image. */
  function ScanBits(img: Image, c: Coding): seq<bool>
    requires Fits(img) && CodingReady(c)
  {
    BlockStream(ScanBlocks(img, c))
  }

  /** The number of 8-pixel steps from `from` while below `limit`. */
  function Tiles(from: int, limit: int): nat
    decreases limit - from
  {
    if from >= limit then 0 else 1 + Tiles(from + 8, limit)
  }

  /** A dimension of n > 0 pixels is covered by ceil(n / 8) tiles, the last one possibly partial. */
  lemma {:induction false} TilesCeiling(from: nat, limit: int)
    requires from < limit
    ensures Tiles(from, limit) == (limit - from + 7) / 8
    decreases limit - from
  {
    if from + 8 < limit {
      TilesCeiling(from + 8, limit);
      DivModUnique(limit - from + 7, 8, (limit - from - 1) / 8 + 1, (limit - from + 7) % 8);
    }
  }

  /**
   * A tile row from x on appends three blocks per tile and keeps what was
   * there; the predictors stay in the range of baseline DC values.
   */
  lemma {:induction false} ScanRowCount(st: ScanState, img: Image, c: Coding, x: int, y: int)
    requires Fits(img) && CodingReady(c) && 0 <= x && 0 <= y < img.height
    requires PredictorsInRange(st) || x < img.width
    ensures var st' := ScanRow(st, img, c, x, y);
      |st'.blocks| == |st.blocks| + 3 * Tiles(x, img.width) && st'.blocks[..|st.blocks|] == st.blocks
      && PredictorsInRange(st')
    decreases img.width - x
  {
    if x < img.width {
      var next := McuStep(st, img, c, x, y);
      ScanRowCount(next, img, c, x + 8, y);
      var last := ScanRow(next, img, c, x + 8, y);
      assert last.blocks[..|st.blocks|] == last.blocks[..|next.blocks|][..|st.blocks|];
    }
  }

  /**
   * The whole scan holds three blocks per tile, one tile for every 8x8
   * square of the image with partial squares at the right and bottom edges
   * counted, in raster order.
   */
  lemma {:induction false} ScanRowsCount(st: ScanState, img: Image, c: Coding, y: int)
    requires Fits(img) && CodingReady(c) && 0 <= y && PredictorsInRange(st)
    ensures var st' := ScanRows(st, img, c, y);
      |st'.blocks| == |st.blocks| + 3 * Tiles(0, img.width) * Tiles(y, img.height)
      && st'.blocks[..|st.blocks|] == st.blocks && PredictorsInRange(st')
    decreases img.height - y
  {
    if y < img.height {
      var row := ScanRow(st, img, c, 0, y);
      ScanRowCount(st, img, c, 0, y);
      ScanRowsCount(row, img, c, y + 8);
      var last := ScanRows(row, img, c, y + 8);
      assert last.blocks[..|st.blocks|] == last.blocks[..|row.blocks|][..|st.blocks|];
      var w := 3 * Tiles(0, img.width);
      assert w * Tiles(y + 8, img.height) + w == w * Tiles(y, img.height) by {
        MulSucc(Tiles(y + 8, img.height), w);
        MulComm(w, Tiles(y + 8, img.height));
        MulComm(w, Tiles(y, img.height));
      }
    }
  }

  /** The number of blocks the image is coded in: three per tile. */
  lemma ScanBlockCount(img: Image, c: Coding)
    requires Fits(img) && CodingReady(c)
    ensures |ScanBlocks(img, c)| == 3 * Tiles(0, img.width) * Tiles(0, img.height)
    ensures img.width > 0 && img.height > 0 ==>
      |ScanBlocks(img, c)| == 3 * ((img.width + 7) / 8) * ((img.height + 7) / 8)
  {
    ScanRowsCount(Start, img, c, 0);
    if img.width > 0 && img.height > 0 {
      TilesCeiling(0, img.width);
      TilesCeiling(0, img.height);
    }
  }

  /**
   * DC prediction per component: the blocks come in Y, Cb, Cr triples, the
   * first block of each component is predicted from 0 and every later one
   * from the DC value of the block three places before it, and the state
   * holds the DC values of the last triple.
   */
  ghost predicate Chained(st: ScanState)
  {
    var b := st.blocks;
    && |b| % 3 == 0
    && (forall i :: 0 <= i < |b| ==> |b[i].values| == 64)
    && (forall i :: 0 <= i < 3 && i < |b| ==> b[i].pred == 0)
    && (forall i :: 3 <= i < |b| ==> b[i].pred == b[i - 3].values[0])
    && (|b| == 0 ==> st.predY == 0 && st.predCb == 0 && st.predCr == 0)
    && (|b| >= 3 ==> st.predY == b[|b| - 3].values[0] && st.predCb == b[|b| - 2].values[0]
                     && st.predCr == b[|b| - 1].values[0])
  }

  lemma McuChained(st: ScanState, img: Image, c: Coding, x: int, y: int)
    requires Fits(img) && CodingReady(c) && 0 <= x < img.width && 0 <= y < img.height && Chained(st)
    ensures Chained(McuStep(st, img, c, x, y))
  {
    var px := Tile(img.src, img.width, img.height, img.format, x, y);
    var luma := c.transform(px, Luma, c.divLuma);
    var blue := c.transform(px, BlueDifference, c.divChroma);
    var red := c.transform(px, RedDifference, c.divChroma);
    assert Quantized(luma) && Quantized(blue) && Quantized(red);
    var st' := McuStep(st, img, c, x, y);
    assert st'.blocks == st.blocks + [CodedBlock(luma, st.predY, c.tables[0], c.tables[1]),
                                      CodedBlock(blue, st.predCb, c.tables[2], c.tables[3]),
                                      CodedBlock(red, st.predCr, c.tables[2], c.tables[3])];
    assert st'.predY == luma[0] && st'.predCb == blue[0] && st'.predCr == red[0];
    ChainedSnoc(st, st', st'.blocks[|st.blocks|..]);
  }

  /** Three more blocks, each predicted from the last DC value of its component, keep the chain. */
  lemma ChainedSnoc(st: ScanState, st': ScanState, triple: seq<CodedBlock>)
    requires Chained(st) && |triple| == 3 && st'.blocks == st.blocks + triple
    requires forall k :: 0 <= k < 3 ==> |triple[k].values| == 64
    requires triple[0].pred == st.predY && triple[1].pred == st.predCb && triple[2].pred == st.predCr
    requires st'.predY == triple[0].values[0] && st'.predCb == triple[1].values[0] && st'.predCr == triple[2].values[0]
    ensures Chained(st')
  {
    var b, n := st'.blocks, |st.blocks|;
    forall i | 0 <= i < |b|
      ensures |b[i].values| == 64
    {
      if i >= n { assert b[i] == triple[i - n]; }
    }
    forall i | 3 <= i < |b|
      ensures b[i].pred == b[i - 3].values[0]
    {
      if i >= n {
        assert b[i] == triple[i - n];
        if n > 0 { assert b[i - 3] == st.blocks[n - 3 + (i - n)]; }
      }
    }
    forall i | 0 <= i < 3 && i < |b|
      ensures b[i].pred == 0
    {
      if n == 0 { assert b[i] == triple[i]; }
    }
    assert b[|b| - 3] == triple[0] && b[|b| - 2] == triple[1] && b[|b| - 1] == triple[2];
  }

  lemma {:induction false} ScanRowChained(st: ScanState, img: Image, c: Coding, x: int, y: int)
    requires Fits(img) && CodingReady(c) && 0 <= x && 0 <= y < img.height && Chained(st)
    ensures Chained(ScanRow(st, img, c, x, y))
    decreases img.width - x
  {
    if x < img.width {
      McuChained(st, img, c, x, y);
      ScanRowChained(McuStep(st, img, c, x, y), img, c, x + 8, y);
    }
  }

  lemma {:induction false} ScanRowsChained(st: ScanState, img: Image, c: Coding, y: int)
    requires Fits(img) && CodingReady(c) && 0 <= y && Chained(st)
    ensures Chained(ScanRows(st, img, c, y))
    decreases img.height - y
  {
    if y < img.height {
      ScanRowChained(st, img, c, 0, y);
      ScanRowsChained(ScanRow(st, img, c, 0, y), img, c, y + 8);
    }
  }

  /**
   * Over the whole scan, each block is predicted from the previous block of
   * the same component, and the first block of each component from 0.
   */
  lemma ScanPredictors(img: Image, c: Coding)
    requires Fits(img) && CodingReady(c)
    ensures var b := ScanBlocks(img, c);
      && |b| % 3 == 0
      && (forall i :: 0 <= i < |b| ==> |b[i].values| == 64)
      && (forall i :: 0 <= i < 3 && i < |b| ==> b[i].pred == 0)
      && (forall i :: 3 <= i < |b| ==> b[i].pred == b[i - 3].values[0])
  {
    ScanRowsChained(Start, img, c, 0);
  }

  /** A baseline block in zig-zag order has its AC coefficients in category 10 or less. */
  lemma QuantizedInRange(block: seq<int>)
    requires Quantized(block)
    ensures AcInRange(ZigZagOrder(block)) && ZigZagOrder(block)[0] == block[0]
  {
    ZigZagOrderPlaces(block);
    ZigZagPermutation();
    Pow2Table();
    forall k | 1 <= k < 64
      ensures Category(ZigZagOrder(block)[k]) <= 10
    {
      assert ZigZag[ScanOrder[k]] == k && ZigZag[0] == 0;
      CategoryAtMost(block[ScanOrder[k]], 10);
    }
  }
}

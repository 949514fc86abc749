/**
 * The constant tables of the encoder: the default quantization tables, the
 * default Huffman table specifications (the typical tables of Annex K of
 * ITU-T T.81) and the zig-zag permutation, with the facts the encoder relies
 * on proved from their contents.
 */
module JpegTables {
  import opened Arith
  import opened BitStream
  import opened Huffman
  import opened Vli
  import opened EntropyCoding

  /** tjei_default_qt_luma_from_spec: Table K.1 in natural order. */
  const QtLumaFromSpec: seq<uint8> :=
    [16, 11, 10, 16, 24, 40, 51, 61]
    + [12, 12, 14, 19, 26, 58, 60, 55]
    + [14, 13, 16, 24, 40, 57, 69, 56]
    + [14, 17, 22, 29, 51, 87, 80, 62]
    + [18, 22, 37, 56, 68, 109, 103, 77]
    + [24, 35, 55, 64, 81, 104, 113, 92]
    + [49, 64, 78, 87, 103, 121, 120, 101]
    + [72, 92, 95, 98, 112, 100, 103, 99]

  /** tjei_default_qt_chroma_from_paper, in natural order as stored. */
  const QtChromaFromPaper: seq<uint8> :=
    [16, 12, 14, 14, 18, 24, 49, 72]
    + [11, 10, 16, 24, 40, 51, 61, 12]
    + [13, 17, 22, 35, 64, 92, 14, 16]
    + [22, 37, 55, 78, 95, 19, 24, 29]
    + [56, 64, 87, 98, 26, 40, 51, 68]
    + [81, 103, 112, 58, 57, 87, 109, 104]
    + [121, 100, 60, 69, 80, 103, 113, 120]
    + [103, 55, 56, 62, 77, 92, 101, 99]

  /** tjei_default_ht_luma_dc_len: the number of codes of each length 1..16. */
  const LumaDcBits: seq<uint8> := [0, 1, 5, 1, 1, 1, 1, 1, 1, 0, 0, 0, 0, 0, 0, 0]

  /** tjei_default_ht_luma_dc: the symbols, in order of increasing code length. */
  const LumaDcVals: seq<uint8> :=
    [0, 1, 2, 3, 4, 5, 6, 7, 8, 9, 10, 11]

  /** tjei_default_ht_chroma_dc_len: the number of codes of each length 1..16. */
  const ChromaDcBits: seq<uint8> := [0, 3, 1, 1, 1, 1, 1, 1, 1, 1, 1, 0, 0, 0, 0, 0]

  /** tjei_default_ht_chroma_dc: the symbols, in order of increasing code length. */
  const ChromaDcVals: seq<uint8> :=
    [0, 1, 2, 3, 4, 5, 6, 7, 8, 9, 10, 11]

  /** tjei_default_ht_luma_ac_len: the number of codes of each length 1..16. */
  const LumaAcBits: seq<uint8> := [0, 2, 1, 3, 3, 2, 4, 3, 5, 5, 4, 4, 0, 0, 1, 0x7D]

  /** tjei_default_ht_luma_ac: the symbols, in order of increasing code length. */
  const LumaAcVals: seq<uint8> :=
    [0x01, 0x02, 0x03, 0x00, 0x04, 0x11, 0x05, 0x12, 0x21, 0x31, 0x41, 0x06, 0x13, 0x51, 0x61, 0x07]
    + [0x22, 0x71, 0x14, 0x32, 0x81, 0x91, 0xA1, 0x08, 0x23, 0x42, 0xB1, 0xC1, 0x15, 0x52, 0xD1, 0xF0]
    + [0x24, 0x33, 0x62, 0x72, 0x82, 0x09, 0x0A, 0x16, 0x17, 0x18, 0x19, 0x1A, 0x25, 0x26, 0x27, 0x28]
    + [0x29, 0x2A, 0x34, 0x35, 0x36, 0x37, 0x38, 0x39, 0x3A, 0x43, 0x44, 0x45, 0x46, 0x47, 0x48, 0x49]
    + [0x4A, 0x53, 0x54, 0x55, 0x56, 0x57, 0x58, 0x59, 0x5A, 0x63, 0x64, 0x65, 0x66, 0x67, 0x68, 0x69]
    + [0x6A, 0x73, 0x74, 0x75, 0x76, 0x77, 0x78, 0x79, 0x7A, 0x83, 0x84, 0x85, 0x86, 0x87, 0x88, 0x89]
    + [0x8A, 0x92, 0x93, 0x94, 0x95, 0x96, 0x97, 0x98, 0x99, 0x9A, 0xA2, 0xA3, 0xA4, 0xA5, 0xA6, 0xA7]
    + [0xA8, 0xA9, 0xAA, 0xB2, 0xB3, 0xB4, 0xB5, 0xB6, 0xB7, 0xB8, 0xB9, 0xBA, 0xC2, 0xC3, 0xC4, 0xC5]
    + [0xC6, 0xC7, 0xC8, 0xC9, 0xCA, 0xD2, 0xD3, 0xD4, 0xD5, 0xD6, 0xD7, 0xD8, 0xD9, 0xDA, 0xE1, 0xE2]
    + [0xE3, 0xE4, 0xE5, 0xE6, 0xE7, 0xE8, 0xE9, 0xEA, 0xF1, 0xF2, 0xF3, 0xF4, 0xF5, 0xF6, 0xF7, 0xF8]
    + [0xF9, 0xFA]

  /** tjei_default_ht_chroma_ac_len: the number of codes of each length 1..16. */
  const ChromaAcBits: seq<uint8> := [0, 2, 1, 2, 4, 4, 3, 4, 7, 5, 4, 4, 0, 1, 2, 0x77]

  /** tjei_default_ht_chroma_ac: the symbols, in order of increasing code length. */
  const ChromaAcVals: seq<uint8> :=
    [0x00, 0x01, 0x02, 0x03, 0x11, 0x04, 0x05, 0x21, 0x31, 0x06, 0x12, 0x41, 0x51, 0x07, 0x61, 0x71]
    + [0x13, 0x22, 0x32, 0x81, 0x08, 0x14, 0x42, 0x91, 0xA1, 0xB1, 0xC1, 0x09, 0x23, 0x33, 0x52, 0xF0]
    + [0x15, 0x62, 0x72, 0xD1, 0x0A, 0x16, 0x24, 0x34, 0xE1, 0x25, 0xF1, 0x17, 0x18, 0x19, 0x1A, 0x26]
    + [0x27, 0x28, 0x29, 0x2A, 0x35, 0x36, 0x37, 0x38, 0x39, 0x3A, 0x43, 0x44, 0x45, 0x46, 0x47, 0x48]
    + [0x49, 0x4A, 0x53, 0x54, 0x55, 0x56, 0x57, 0x58, 0x59, 0x5A, 0x63, 0x64, 0x65, 0x66, 0x67, 0x68]
    + [0x69, 0x6A, 0x73, 0x74, 0x75, 0x76, 0x77, 0x78, 0x79, 0x7A, 0x82, 0x83, 0x84, 0x85, 0x86, 0x87]
    + [0x88, 0x89, 0x8A, 0x92, 0x93, 0x94, 0x95, 0x96, 0x97, 0x98, 0x99, 0x9A, 0xA2, 0xA3, 0xA4, 0xA5]
    + [0xA6, 0xA7, 0xA8, 0xA9, 0xAA, 0xB2, 0xB3, 0xB4, 0xB5, 0xB6, 0xB7, 0xB8, 0xB9, 0xBA, 0xC2, 0xC3]
    + [0xC4, 0xC5, 0xC6, 0xC7, 0xC8, 0xC9, 0xCA, 0xD2, 0xD3, 0xD4, 0xD5, 0xD6, 0xD7, 0xD8, 0xD9, 0xDA]
    + [0xE2, 0xE3, 0xE4, 0xE5, 0xE6, 0xE7, 0xE8, 0xE9, 0xEA, 0xF2, 0xF3, 0xF4, 0xF5, 0xF6, 0xF7, 0xF8]
    + [0xF9, 0xFA]

  /**
   * tjei_zig_zag: for each coefficient in natural (row-major) order, its
   * position in the zig-zag sequence.
   */
  const ZigZag: seq<nat> :=
    [0, 1, 5, 6, 14, 15, 27, 28]
    + [2, 4, 7, 13, 16, 26, 29, 42]
    + [3, 8, 12, 17, 25, 30, 41, 43]
    + [9, 11, 18, 24, 31, 40, 44, 53]
    + [10, 19, 23, 32, 39, 45, 52, 54]
    + [20, 22, 33, 38, 46, 51, 55, 60]
    + [21, 34, 37, 47, 50, 56, 59, 61]
    + [35, 36, 48, 49, 57, 58, 62, 63]

  /** The inverse permutation: the natural index of each zig-zag position (Figure A.6). */
  const ScanOrder: seq<nat> :=
    [0, 1, 8, 16, 9, 2, 3, 10]
    + [17, 24, 32, 25, 18, 11, 4, 5]
    + [12, 19, 26, 33, 40, 48, 41, 34]
    + [27, 20, 13, 6, 7, 14, 21, 28]
    + [35, 42, 49, 56, 57, 50, 43, 36]
    + [29, 22, 15, 23, 30, 37, 44, 51]
    + [58, 59, 52, 45, 38, 31, 39, 46]
    + [53, 60, 61, 54, 47, 55, 62, 63]

  /**
   * The zig-zag position of the coefficient in row r, column c, computed
   * from the anti-diagonals: diagonal d = r + c is traversed downwards
   * (row increasing) when d is odd and upwards when d is even.
   */
  function DiagonalPosition(r: nat, c: nat): (p: nat)
    requires r < 8 && c < 8
  {
    var d := r + c;
    var before := if d < 8 then d * (d + 1) / 2 else 64 - (15 - d) * (16 - d) / 2;
    var first := if d < 8 then 0 else d - 7;
    before + (if d % 2 == 1 then r else c) - first
  }

  /** tjei_zig_zag is the anti-diagonal order of the standard, and ScanOrder inverts it. */
  lemma ZigZagPermutation()
    ensures |ZigZag| == 64 && |ScanOrder| == 64
    ensures forall r, c :: 0 <= r < 8 && 0 <= c < 8 ==> ZigZag[8 * r + c] == DiagonalPosition(r, c)
    ensures forall i :: 0 <= i < 64 ==> ZigZag[i] < 64 && ScanOrder[ZigZag[i]] == i
    ensures forall k :: 0 <= k < 64 ==> ScanOrder[k] < 64 && ZigZag[ScanOrder[k]] == k
  {
    forall r, c | 0 <= r < 8 && 0 <= c < 8
      ensures ZigZag[8 * r + c] == DiagonalPosition(r, c)
    {
      ZigZagRow(r, c);
    }
    forall i | 0 <= i < 64
      ensures ZigZag[i] < 64 && ScanOrder[ZigZag[i]] == i
    {
      ZigZagRow(i / 8, i % 8);
    }
    forall k | 0 <= k < 64
      ensures ScanOrder[k] < 64 && ZigZag[ScanOrder[k]] == k
    {
      ScanOrderRow(k / 8, k % 8);
    }
  }

  /** The entry of tjei_zig_zag in row r, column c. */
  lemma ZigZagRow(r: nat, c: nat)
    requires r < 8 && c < 8
    ensures ZigZag[8 * r + c] == DiagonalPosition(r, c) < 64 && ScanOrder[ZigZag[8 * r + c]] == 8 * r + c
  {
    if r == 0 {
      ZigZagRow0(c);
    } else if r == 1 {
      ZigZagRow1(c);
    } else if r == 2 {
      ZigZagRow2(c);
    } else if r == 3 {
      ZigZagRow3(c);
    } else if r == 4 {
      ZigZagRow4(c);
    } else if r == 5 {
      ZigZagRow5(c);
    } else if r == 6 {
      ZigZagRow6(c);
    } else {
      ZigZagRow7(c);
    }
  }

  /** The entry of ScanOrder at position 8 * r + c. */
  lemma ScanOrderRow(r: nat, c: nat)
    requires r < 8 && c < 8
    ensures ScanOrder[8 * r + c] < 64 && ZigZag[ScanOrder[8 * r + c]] == 8 * r + c
  {
    if r == 0 {
      ScanOrderRow0(c);
    } else if r == 1 {
      ScanOrderRow1(c);
    } else if r == 2 {
      ScanOrderRow2(c);
    } else if r == 3 {
      ScanOrderRow3(c);
    } else if r == 4 {
      ScanOrderRow4(c);
    } else if r == 5 {
      ScanOrderRow5(c);
    } else if r == 6 {
      ScanOrderRow6(c);
    } else {
      ScanOrderRow7(c);
    }
  }

  lemma ZigZagRow0(c: nat)
    requires c < 8
    ensures ZigZag[0 + c] == DiagonalPosition(0, c) < 64 && ScanOrder[ZigZag[0 + c]] == 0 + c
  {
    if c == 0 {
      assert ZigZag[0] == 0 == DiagonalPosition(0, 0) && ScanOrder[0] == 0;
    } else if c == 1 {
      assert ZigZag[1] == 1 == DiagonalPosition(0, 1) && ScanOrder[1] == 1;
    } else if c == 2 {
      assert ZigZag[2] == 5 == DiagonalPosition(0, 2) && ScanOrder[5] == 2;
    } else if c == 3 {
      assert ZigZag[3] == 6 == DiagonalPosition(0, 3) && ScanOrder[6] == 3;
    } else if c == 4 {
      assert ZigZag[4] == 14 == DiagonalPosition(0, 4) && ScanOrder[14] == 4;
    } else if c == 5 {
      assert ZigZag[5] == 15 == DiagonalPosition(0, 5) && ScanOrder[15] == 5;
    } else if c == 6 {
      assert ZigZag[6] == 27 == DiagonalPosition(0, 6) && ScanOrder[27] == 6;
    } else {
      assert ZigZag[7] == 28 == DiagonalPosition(0, 7) && ScanOrder[28] == 7;
    }
  }

  lemma ZigZagRow1(c: nat)
    requires c < 8
    ensures ZigZag[8 + c] == DiagonalPosition(1, c) < 64 && ScanOrder[ZigZag[8 + c]] == 8 + c
  {
    if c == 0 {
      assert ZigZag[8] == 2 == DiagonalPosition(1, 0) && ScanOrder[2] == 8;
    } else if c == 1 {
      assert ZigZag[9] == 4 == DiagonalPosition(1, 1) && ScanOrder[4] == 9;
    } else if c == 2 {
      assert ZigZag[10] == 7 == DiagonalPosition(1, 2) && ScanOrder[7] == 10;
    } else if c == 3 {
      assert ZigZag[11] == 13 == DiagonalPosition(1, 3) && ScanOrder[13] == 11;
    } else if c == 4 {
      assert ZigZag[12] == 16 == DiagonalPosition(1, 4) && ScanOrder[16] == 12;
    } else if c == 5 {
      assert ZigZag[13] == 26 == DiagonalPosition(1, 5) && ScanOrder[26] == 13;
    } else if c == 6 {
      assert ZigZag[14] == 29 == DiagonalPosition(1, 6) && ScanOrder[29] == 14;
    } else {
      assert ZigZag[15] == 42 == DiagonalPosition(1, 7) && ScanOrder[42] == 15;
    }
  }

  lemma ZigZagRow2(c: nat)
    requires c < 8
    ensures ZigZag[16 + c] == DiagonalPosition(2, c) < 64 && ScanOrder[ZigZag[16 + c]] == 16 + c
  {
    if c == 0 {
      assert ZigZag[16] == 3 == DiagonalPosition(2, 0) && ScanOrder[3] == 16;
    } else if c == 1 {
      assert ZigZag[17] == 8 == DiagonalPosition(2, 1) && ScanOrder[8] == 17;
    } else if c == 2 {
      assert ZigZag[18] == 12 == DiagonalPosition(2, 2) && ScanOrder[12] == 18;
    } else if c == 3 {
      assert ZigZag[19] == 17 == DiagonalPosition(2, 3) && ScanOrder[17] == 19;
    } else if c == 4 {
      assert ZigZag[20] == 25 == DiagonalPosition(2, 4) && ScanOrder[25] == 20;
    } else if c == 5 {
      assert ZigZag[21] == 30 == DiagonalPosition(2, 5) && ScanOrder[30] == 21;
    } else if c == 6 {
      assert ZigZag[22] == 41 == DiagonalPosition(2, 6) && ScanOrder[41] == 22;
    } else {
      assert ZigZag[23] == 43 == DiagonalPosition(2, 7) && ScanOrder[43] == 23;
    }
  }

  lemma ZigZagRow3(c: nat)
    requires c < 8
    ensures ZigZag[24 + c] == DiagonalPosition(3, c) < 64 && ScanOrder[ZigZag[24 + c]] == 24 + c
  {
    if c == 0 {
      assert ZigZag[24] == 9 == DiagonalPosition(3, 0) && ScanOrder[9] == 24;
    } else if c == 1 {
      assert ZigZag[25] == 11 == DiagonalPosition(3, 1) && ScanOrder[11] == 25;
    } else if c == 2 {
      assert ZigZag[26] == 18 == DiagonalPosition(3, 2) && ScanOrder[18] == 26;
    } else if c == 3 {
      assert ZigZag[27] == 24 == DiagonalPosition(3, 3) && ScanOrder[24] == 27;
    } else if c == 4 {
      assert ZigZag[28] == 31 == DiagonalPosition(3, 4) && ScanOrder[31] == 28;
    } else if c == 5 {
      assert ZigZag[29] == 40 == DiagonalPosition(3, 5) && ScanOrder[40] == 29;
    } else if c == 6 {
      assert ZigZag[30] == 44 == DiagonalPosition(3, 6) && ScanOrder[44] == 30;
    } else {
      assert ZigZag[31] == 53 == DiagonalPosition(3, 7) && ScanOrder[53] == 31;
    }
  }

  lemma ZigZagRow4(c: nat)
    requires c < 8
    ensures ZigZag[32 + c] == DiagonalPosition(4, c) < 64 && ScanOrder[ZigZag[32 + c]] == 32 + c
  {
    if c == 0 {
      assert ZigZag[32] == 10 == DiagonalPosition(4, 0) && ScanOrder[10] == 32;
    } else if c == 1 {
      assert ZigZag[33] == 19 == DiagonalPosition(4, 1) && ScanOrder[19] == 33;
    } else if c == 2 {
      assert ZigZag[34] == 23 == DiagonalPosition(4, 2) && ScanOrder[23] == 34;
    } else if c == 3 {
      assert ZigZag[35] == 32 == DiagonalPosition(4, 3) && ScanOrder[32] == 35;
    } else if c == 4 {
      assert ZigZag[36] == 39 == DiagonalPosition(4, 4) && ScanOrder[39] == 36;
    } else if c == 5 {
      assert ZigZag[37] == 45 == DiagonalPosition(4, 5) && ScanOrder[45] == 37;
    } else if c == 6 {
      assert ZigZag[38] == 52 == DiagonalPosition(4, 6) && ScanOrder[52] == 38;
    } else {
      assert ZigZag[39] == 54 == DiagonalPosition(4, 7) && ScanOrder[54] == 39;
    }
  }

  lemma ZigZagRow5(c: nat)
    requires c < 8
    ensures ZigZag[40 + c] == DiagonalPosition(5, c) < 64 && ScanOrder[ZigZag[40 + c]] == 40 + c
  {
    if c == 0 {
      assert ZigZag[40] == 20 == DiagonalPosition(5, 0) && ScanOrder[20] == 40;
    } else if c == 1 {
      assert ZigZag[41] == 22 == DiagonalPosition(5, 1) && ScanOrder[22] == 41;
    } else if c == 2 {
      assert ZigZag[42] == 33 == DiagonalPosition(5, 2) && ScanOrder[33] == 42;
    } else if c == 3 {
      assert ZigZag[43] == 38 == DiagonalPosition(5, 3) && ScanOrder[38] == 43;
    } else if c == 4 {
      assert ZigZag[44] == 46 == DiagonalPosition(5, 4) && ScanOrder[46] == 44;
    } else if c == 5 {
      assert ZigZag[45] == 51 == DiagonalPosition(5, 5) && ScanOrder[51] == 45;
    } else if c == 6 {
      assert ZigZag[46] == 55 == DiagonalPosition(5, 6) && ScanOrder[55] == 46;
    } else {
      assert ZigZag[47] == 60 == DiagonalPosition(5, 7) && ScanOrder[60] == 47;
    }
  }

  lemma ZigZagRow6(c: nat)
    requires c < 8
    ensures ZigZag[48 + c] == DiagonalPosition(6, c) < 64 && ScanOrder[ZigZag[48 + c]] == 48 + c
  {
    if c == 0 {
      assert ZigZag[48] == 21 == DiagonalPosition(6, 0) && ScanOrder[21] == 48;
    } else if c == 1 {
      assert ZigZag[49] == 34 == DiagonalPosition(6, 1) && ScanOrder[34] == 49;
    } else if c == 2 {
      assert ZigZag[50] == 37 == DiagonalPosition(6, 2) && ScanOrder[37] == 50;
    } else if c == 3 {
      assert ZigZag[51] == 47 == DiagonalPosition(6, 3) && ScanOrder[47] == 51;
    } else if c == 4 {
      assert ZigZag[52] == 50 == DiagonalPosition(6, 4) && ScanOrder[50] == 52;
    } else if c == 5 {
      assert ZigZag[53] == 56 == DiagonalPosition(6, 5) && ScanOrder[56] == 53;
    } else if c == 6 {
      assert ZigZag[54] == 59 == DiagonalPosition(6, 6) && ScanOrder[59] == 54;
    } else {
      assert ZigZag[55] == 61 == DiagonalPosition(6, 7) && ScanOrder[61] == 55;
    }
  }

  lemma ZigZagRow7(c: nat)
    requires c < 8
    ensures ZigZag[56 + c] == DiagonalPosition(7, c) < 64 && ScanOrder[ZigZag[56 + c]] == 56 + c
  {
    if c == 0 {
      assert ZigZag[56] == 35 == DiagonalPosition(7, 0) && ScanOrder[35] == 56;
    } else if c == 1 {
      assert ZigZag[57] == 36 == DiagonalPosition(7, 1) && ScanOrder[36] == 57;
    } else if c == 2 {
      assert ZigZag[58] == 48 == DiagonalPosition(7, 2) && ScanOrder[48] == 58;
    } else if c == 3 {
      assert ZigZag[59] == 49 == DiagonalPosition(7, 3) && ScanOrder[49] == 59;
    } else if c == 4 {
      assert ZigZag[60] == 57 == DiagonalPosition(7, 4) && ScanOrder[57] == 60;
    } else if c == 5 {
      assert ZigZag[61] == 58 == DiagonalPosition(7, 5) && ScanOrder[58] == 61;
    } else if c == 6 {
      assert ZigZag[62] == 62 == DiagonalPosition(7, 6) && ScanOrder[62] == 62;
    } else {
      assert ZigZag[63] == 63 == DiagonalPosition(7, 7) && ScanOrder[63] == 63;
    }
  }

  lemma ScanOrderRow0(c: nat)
    requires c < 8
    ensures ScanOrder[0 + c] < 64 && ZigZag[ScanOrder[0 + c]] == 0 + c
  {
    if c == 0 {
      assert ScanOrder[0] == 0 && ZigZag[0] == 0;
    } else if c == 1 {
      assert ScanOrder[1] == 1 && ZigZag[1] == 1;
    } else if c == 2 {
      assert ScanOrder[2] == 8 && ZigZag[8] == 2;
    } else if c == 3 {
      assert ScanOrder[3] == 16 && ZigZag[16] == 3;
    } else if c == 4 {
      assert ScanOrder[4] == 9 && ZigZag[9] == 4;
    } else if c == 5 {
      assert ScanOrder[5] == 2 && ZigZag[2] == 5;
    } else if c == 6 {
      assert ScanOrder[6] == 3 && ZigZag[3] == 6;
    } else {
      assert ScanOrder[7] == 10 && ZigZag[10] == 7;
    }
  }

  lemma ScanOrderRow1(c: nat)
    requires c < 8
    ensures ScanOrder[8 + c] < 64 && ZigZag[ScanOrder[8 + c]] == 8 + c
  {
    if c == 0 {
      assert ScanOrder[8] == 17 && ZigZag[17] == 8;
    } else if c == 1 {
      assert ScanOrder[9] == 24 && ZigZag[24] == 9;
    } else if c == 2 {
      assert ScanOrder[10] == 32 && ZigZag[32] == 10;
    } else if c == 3 {
      assert ScanOrder[11] == 25 && ZigZag[25] == 11;
    } else if c == 4 {
      assert ScanOrder[12] == 18 && ZigZag[18] == 12;
    } else if c == 5 {
      assert ScanOrder[13] == 11 && ZigZag[11] == 13;
    } else if c == 6 {
      assert ScanOrder[14] == 4 && ZigZag[4] == 14;
    } else {
      assert ScanOrder[15] == 5 && ZigZag[5] == 15;
    }
  }

  lemma ScanOrderRow2(c: nat)
    requires c < 8
    ensures ScanOrder[16 + c] < 64 && ZigZag[ScanOrder[16 + c]] == 16 + c
  {
    if c == 0 {
      assert ScanOrder[16] == 12 && ZigZag[12] == 16;
    } else if c == 1 {
      assert ScanOrder[17] == 19 && ZigZag[19] == 17;
    } else if c == 2 {
      assert ScanOrder[18] == 26 && ZigZag[26] == 18;
    } else if c == 3 {
      assert ScanOrder[19] == 33 && ZigZag[33] == 19;
    } else if c == 4 {
      assert ScanOrder[20] == 40 && ZigZag[40] == 20;
    } else if c == 5 {
      assert ScanOrder[21] == 48 && ZigZag[48] == 21;
    } else if c == 6 {
      assert ScanOrder[22] == 41 && ZigZag[41] == 22;
    } else {
      assert ScanOrder[23] == 34 && ZigZag[34] == 23;
    }
  }

  lemma ScanOrderRow3(c: nat)
    requires c < 8
    ensures ScanOrder[24 + c] < 64 && ZigZag[ScanOrder[24 + c]] == 24 + c
  {
    if c == 0 {
      assert ScanOrder[24] == 27 && ZigZag[27] == 24;
    } else if c == 1 {
      assert ScanOrder[25] == 20 && ZigZag[20] == 25;
    } else if c == 2 {
      assert ScanOrder[26] == 13 && ZigZag[13] == 26;
    } else if c == 3 {
      assert ScanOrder[27] == 6 && ZigZag[6] == 27;
    } else if c == 4 {
      assert ScanOrder[28] == 7 && ZigZag[7] == 28;
    } else if c == 5 {
      assert ScanOrder[29] == 14 && ZigZag[14] == 29;
    } else if c == 6 {
      assert ScanOrder[30] == 21 && ZigZag[21] == 30;
    } else {
      assert ScanOrder[31] == 28 && ZigZag[28] == 31;
    }
  }

  lemma ScanOrderRow4(c: nat)
    requires c < 8
    ensures ScanOrder[32 + c] < 64 && ZigZag[ScanOrder[32 + c]] == 32 + c
  {
    if c == 0 {
      assert ScanOrder[32] == 35 && ZigZag[35] == 32;
    } else if c == 1 {
      assert ScanOrder[33] == 42 && ZigZag[42] == 33;
    } else if c == 2 {
      assert ScanOrder[34] == 49 && ZigZag[49] == 34;
    } else if c == 3 {
      assert ScanOrder[35] == 56 && ZigZag[56] == 35;
    } else if c == 4 {
      assert ScanOrder[36] == 57 && ZigZag[57] == 36;
    } else if c == 5 {
      assert ScanOrder[37] == 50 && ZigZag[50] == 37;
    } else if c == 6 {
      assert ScanOrder[38] == 43 && ZigZag[43] == 38;
    } else {
      assert ScanOrder[39] == 36 && ZigZag[36] == 39;
    }
  }

  lemma ScanOrderRow5(c: nat)
    requires c < 8
    ensures ScanOrder[40 + c] < 64 && ZigZag[ScanOrder[40 + c]] == 40 + c
  {
    if c == 0 {
      assert ScanOrder[40] == 29 && ZigZag[29] == 40;
    } else if c == 1 {
      assert ScanOrder[41] == 22 && ZigZag[22] == 41;
    } else if c == 2 {
      assert ScanOrder[42] == 15 && ZigZag[15] == 42;
    } else if c == 3 {
      assert ScanOrder[43] == 23 && ZigZag[23] == 43;
    } else if c == 4 {
      assert ScanOrder[44] == 30 && ZigZag[30] == 44;
    } else if c == 5 {
      assert ScanOrder[45] == 37 && ZigZag[37] == 45;
    } else if c == 6 {
      assert ScanOrder[46] == 44 && ZigZag[44] == 46;
    } else {
      assert ScanOrder[47] == 51 && ZigZag[51] == 47;
    }
  }

  lemma ScanOrderRow6(c: nat)
    requires c < 8
    ensures ScanOrder[48 + c] < 64 && ZigZag[ScanOrder[48 + c]] == 48 + c
  {
    if c == 0 {
      assert ScanOrder[48] == 58 && ZigZag[58] == 48;
    } else if c == 1 {
      assert ScanOrder[49] == 59 && ZigZag[59] == 49;
    } else if c == 2 {
      assert ScanOrder[50] == 52 && ZigZag[52] == 50;
    } else if c == 3 {
      assert ScanOrder[51] == 45 && ZigZag[45] == 51;
    } else if c == 4 {
      assert ScanOrder[52] == 38 && ZigZag[38] == 52;
    } else if c == 5 {
      assert ScanOrder[53] == 31 && ZigZag[31] == 53;
    } else if c == 6 {
      assert ScanOrder[54] == 39 && ZigZag[39] == 54;
    } else {
      assert ScanOrder[55] == 46 && ZigZag[46] == 55;
    }
  }

  lemma ScanOrderRow7(c: nat)
    requires c < 8
    ensures ScanOrder[56 + c] < 64 && ZigZag[ScanOrder[56 + c]] == 56 + c
  {
    if c == 0 {
      assert ScanOrder[56] == 53 && ZigZag[53] == 56;
    } else if c == 1 {
      assert ScanOrder[57] == 60 && ZigZag[60] == 57;
    } else if c == 2 {
      assert ScanOrder[58] == 61 && ZigZag[61] == 58;
    } else if c == 3 {
      assert ScanOrder[59] == 54 && ZigZag[54] == 59;
    } else if c == 4 {
      assert ScanOrder[60] == 47 && ZigZag[47] == 60;
    } else if c == 5 {
      assert ScanOrder[61] == 55 && ZigZag[55] == 61;
    } else if c == 6 {
      assert ScanOrder[62] == 62 && ZigZag[62] == 62;
    } else {
      assert ScanOrder[63] == 63 && ZigZag[63] == 63;
    }
  }

  lemma Pow2Table()
    ensures Pow2(0) == 1 && Pow2(1) == 2 && Pow2(2) == 4 && Pow2(3) == 8
    ensures Pow2(4) == 16 && Pow2(5) == 32 && Pow2(6) == 64 && Pow2(7) == 128
    ensures Pow2(8) == 256 && Pow2(9) == 512 && Pow2(10) == 1024 && Pow2(11) == 2048
    ensures Pow2(12) == 4096 && Pow2(13) == 8192 && Pow2(14) == 16384 && Pow2(15) == 32768
    ensures Pow2(16) == 65536
  {
    assert Pow2(1) == 2;
    assert Pow2(2) == 4;
    assert Pow2(3) == 8;
    assert Pow2(4) == 16;
    assert Pow2(5) == 32;
    assert Pow2(6) == 64;
    assert Pow2(7) == 128;
    assert Pow2(8) == 256;
    assert Pow2(9) == 512;
    assert Pow2(10) == 1024;
    assert Pow2(11) == 2048;
    assert Pow2(12) == 4096;
    assert Pow2(13) == 8192;
    assert Pow2(14) == 16384;
    assert Pow2(15) == 32768;
    assert Pow2(16) == 65536;
  }

  /**
   * The LumaDc specification lists 12 symbols, as many as its HUFFVAL
   * holds, and satisfies Kraft's inequality (scaled by 2^16, the sum is 65408).
   */
  lemma LumaDcSpec()
    ensures |LumaDcBits| == 16 && Total(LumaDcBits, 16) == |LumaDcVals| == 12
    ensures CountsKraft(LumaDcBits, 16) == 65408 <= Pow2(16)
  {
    Pow2Table();
    assert Total(LumaDcBits, 1) == 0 && CountsKraft(LumaDcBits, 1) == 0;
    assert Total(LumaDcBits, 2) == 1 && CountsKraft(LumaDcBits, 2) == 16384;
    assert Total(LumaDcBits, 3) == 6 && CountsKraft(LumaDcBits, 3) == 57344;
    assert Total(LumaDcBits, 4) == 7 && CountsKraft(LumaDcBits, 4) == 61440;
    assert Total(LumaDcBits, 5) == 8 && CountsKraft(LumaDcBits, 5) == 63488;
    assert Total(LumaDcBits, 6) == 9 && CountsKraft(LumaDcBits, 6) == 64512;
    assert Total(LumaDcBits, 7) == 10 && CountsKraft(LumaDcBits, 7) == 65024;
    assert Total(LumaDcBits, 8) == 11 && CountsKraft(LumaDcBits, 8) == 65280;
    assert Total(LumaDcBits, 9) == 12 && CountsKraft(LumaDcBits, 9) == 65408;
    assert Total(LumaDcBits, 10) == 12 && CountsKraft(LumaDcBits, 10) == 65408;
    assert Total(LumaDcBits, 11) == 12 && CountsKraft(LumaDcBits, 11) == 65408;
    assert Total(LumaDcBits, 12) == 12 && CountsKraft(LumaDcBits, 12) == 65408;
    assert Total(LumaDcBits, 13) == 12 && CountsKraft(LumaDcBits, 13) == 65408;
    assert Total(LumaDcBits, 14) == 12 && CountsKraft(LumaDcBits, 14) == 65408;
    assert Total(LumaDcBits, 15) == 12 && CountsKraft(LumaDcBits, 15) == 65408;
    assert Total(LumaDcBits, 16) == 12 && CountsKraft(LumaDcBits, 16) == 65408;
  }

  /**
   * The ChromaDc specification lists 12 symbols, as many as its HUFFVAL
   * holds, and satisfies Kraft's inequality (scaled by 2^16, the sum is 65504).
   */
  lemma ChromaDcSpec()
    ensures |ChromaDcBits| == 16 && Total(ChromaDcBits, 16) == |ChromaDcVals| == 12
    ensures CountsKraft(ChromaDcBits, 16) == 65504 <= Pow2(16)
  {
    Pow2Table();
    assert Total(ChromaDcBits, 1) == 0 && CountsKraft(ChromaDcBits, 1) == 0;
    assert Total(ChromaDcBits, 2) == 3 && CountsKraft(ChromaDcBits, 2) == 49152;
    assert Total(ChromaDcBits, 3) == 4 && CountsKraft(ChromaDcBits, 3) == 57344;
    assert Total(ChromaDcBits, 4) == 5 && CountsKraft(ChromaDcBits, 4) == 61440;
    assert Total(ChromaDcBits, 5) == 6 && CountsKraft(ChromaDcBits, 5) == 63488;
    assert Total(ChromaDcBits, 6) == 7 && CountsKraft(ChromaDcBits, 6) == 64512;
    assert Total(ChromaDcBits, 7) == 8 && CountsKraft(ChromaDcBits, 7) == 65024;
    assert Total(ChromaDcBits, 8) == 9 && CountsKraft(ChromaDcBits, 8) == 65280;
    assert Total(ChromaDcBits, 9) == 10 && CountsKraft(ChromaDcBits, 9) == 65408;
    assert Total(ChromaDcBits, 10) == 11 && CountsKraft(ChromaDcBits, 10) == 65472;
    assert Total(ChromaDcBits, 11) == 12 && CountsKraft(ChromaDcBits, 11) == 65504;
    assert Total(ChromaDcBits, 12) == 12 && CountsKraft(ChromaDcBits, 12) == 65504;
    assert Total(ChromaDcBits, 13) == 12 && CountsKraft(ChromaDcBits, 13) == 65504;
    assert Total(ChromaDcBits, 14) == 12 && CountsKraft(ChromaDcBits, 14) == 65504;
    assert Total(ChromaDcBits, 15) == 12 && CountsKraft(ChromaDcBits, 15) == 65504;
    assert Total(ChromaDcBits, 16) == 12 && CountsKraft(ChromaDcBits, 16) == 65504;
  }

  /**
   * The LumaAc specification lists 162 symbols, as many as its HUFFVAL
   * holds, and satisfies Kraft's inequality (scaled by 2^16, the sum is 65535).
   */
  lemma LumaAcSpec()
    ensures |LumaAcBits| == 16 && Total(LumaAcBits, 16) == |LumaAcVals| == 162
    ensures CountsKraft(LumaAcBits, 16) == 65535 <= Pow2(16)
  {
    Pow2Table();
    assert Total(LumaAcBits, 1) == 0 && CountsKraft(LumaAcBits, 1) == 0;
    assert Total(LumaAcBits, 2) == 2 && CountsKraft(LumaAcBits, 2) == 32768;
    assert Total(LumaAcBits, 3) == 3 && CountsKraft(LumaAcBits, 3) == 40960;
    assert Total(LumaAcBits, 4) == 6 && CountsKraft(LumaAcBits, 4) == 53248;
    assert Total(LumaAcBits, 5) == 9 && CountsKraft(LumaAcBits, 5) == 59392;
    assert Total(LumaAcBits, 6) == 11 && CountsKraft(LumaAcBits, 6) == 61440;
    assert Total(LumaAcBits, 7) == 15 && CountsKraft(LumaAcBits, 7) == 63488;
    assert Total(LumaAcBits, 8) == 18 && CountsKraft(LumaAcBits, 8) == 64256;
    assert Total(LumaAcBits, 9) == 23 && CountsKraft(LumaAcBits, 9) == 64896;
    assert Total(LumaAcBits, 10) == 28 && CountsKraft(LumaAcBits, 10) == 65216;
    assert Total(LumaAcBits, 11) == 32 && CountsKraft(LumaAcBits, 11) == 65344;
    assert Total(LumaAcBits, 12) == 36 && CountsKraft(LumaAcBits, 12) == 65408;
    assert Total(LumaAcBits, 13) == 36 && CountsKraft(LumaAcBits, 13) == 65408;
    assert Total(LumaAcBits, 14) == 36 && CountsKraft(LumaAcBits, 14) == 65408;
    assert Total(LumaAcBits, 15) == 37 && CountsKraft(LumaAcBits, 15) == 65410;
    assert Total(LumaAcBits, 16) == 162 && CountsKraft(LumaAcBits, 16) == 65535;
  }

  /**
   * The ChromaAc specification lists 162 symbols, as many as its HUFFVAL
   * holds, and satisfies Kraft's inequality (scaled by 2^16, the sum is 65535).
   */
  lemma ChromaAcSpec()
    ensures |ChromaAcBits| == 16 && Total(ChromaAcBits, 16) == |ChromaAcVals| == 162
    ensures CountsKraft(ChromaAcBits, 16) == 65535 <= Pow2(16)
  {
    Pow2Table();
    assert Total(ChromaAcBits, 1) == 0 && CountsKraft(ChromaAcBits, 1) == 0;
    assert Total(ChromaAcBits, 2) == 2 && CountsKraft(ChromaAcBits, 2) == 32768;
    assert Total(ChromaAcBits, 3) == 3 && CountsKraft(ChromaAcBits, 3) == 40960;
    assert Total(ChromaAcBits, 4) == 5 && CountsKraft(ChromaAcBits, 4) == 49152;
    assert Total(ChromaAcBits, 5) == 9 && CountsKraft(ChromaAcBits, 5) == 57344;
    assert Total(ChromaAcBits, 6) == 13 && CountsKraft(ChromaAcBits, 6) == 61440;
    assert Total(ChromaAcBits, 7) == 16 && CountsKraft(ChromaAcBits, 7) == 62976;
    assert Total(ChromaAcBits, 8) == 20 && CountsKraft(ChromaAcBits, 8) == 64000;
    assert Total(ChromaAcBits, 9) == 27 && CountsKraft(ChromaAcBits, 9) == 64896;
    assert Total(ChromaAcBits, 10) == 32 && CountsKraft(ChromaAcBits, 10) == 65216;
    assert Total(ChromaAcBits, 11) == 36 && CountsKraft(ChromaAcBits, 11) == 65344;
    assert Total(ChromaAcBits, 12) == 40 && CountsKraft(ChromaAcBits, 12) == 65408;
    assert Total(ChromaAcBits, 13) == 40 && CountsKraft(ChromaAcBits, 13) == 65408;
    assert Total(ChromaAcBits, 14) == 41 && CountsKraft(ChromaAcBits, 14) == 65412;
    assert Total(ChromaAcBits, 15) == 43 && CountsKraft(ChromaAcBits, 15) == 65416;
    assert Total(ChromaAcBits, 16) == 162 && CountsKraft(ChromaAcBits, 16) == 65535;
  }

  /** The sizes alone of the four specifications, without the sums that prove them. */
  lemma LumaDcSized()
    ensures |LumaDcBits| == 16 && Total(LumaDcBits, 16) == 12 && |LumaDcVals| == 12
  {
    LumaDcSpec();
  }

  lemma ChromaDcSized()
    ensures |ChromaDcBits| == 16 && Total(ChromaDcBits, 16) == 12 && |ChromaDcVals| == 12
  {
    ChromaDcSpec();
  }

  lemma LumaAcSized()
    ensures |LumaAcBits| == 16 && Total(LumaAcBits, 16) == 162 && |LumaAcVals| == 162
  {
    LumaAcSpec();
  }

  lemma ChromaAcSized()
    ensures |ChromaAcBits| == 16 && Total(ChromaAcBits, 16) == 162 && |ChromaAcVals| == 162
  {
    ChromaAcSpec();
  }

  lemma LumaDcListed(c: nat)
    requires c <= 11
    ensures c as uint8 in LumaDcVals
  {
    if c == 0 {
      assert LumaDcVals[0] == 0;
    } else if c == 1 {
      assert LumaDcVals[1] == 1;
    } else if c == 2 {
      assert LumaDcVals[2] == 2;
    } else if c == 3 {
      assert LumaDcVals[3] == 3;
    } else if c == 4 {
      assert LumaDcVals[4] == 4;
    } else if c == 5 {
      assert LumaDcVals[5] == 5;
    } else if c == 6 {
      assert LumaDcVals[6] == 6;
    } else if c == 7 {
      assert LumaDcVals[7] == 7;
    } else if c == 8 {
      assert LumaDcVals[8] == 8;
    } else if c == 9 {
      assert LumaDcVals[9] == 9;
    } else if c == 10 {
      assert LumaDcVals[10] == 10;
    } else if c == 11 {
      assert LumaDcVals[11] == 11;
    }
  }

  lemma ChromaDcListed(c: nat)
    requires c <= 11
    ensures c as uint8 in ChromaDcVals
  {
    if c == 0 {
      assert ChromaDcVals[0] == 0;
    } else if c == 1 {
      assert ChromaDcVals[1] == 1;
    } else if c == 2 {
      assert ChromaDcVals[2] == 2;
    } else if c == 3 {
      assert ChromaDcVals[3] == 3;
    } else if c == 4 {
      assert ChromaDcVals[4] == 4;
    } else if c == 5 {
      assert ChromaDcVals[5] == 5;
    } else if c == 6 {
      assert ChromaDcVals[6] == 6;
    } else if c == 7 {
      assert ChromaDcVals[7] == 7;
    } else if c == 8 {
      assert ChromaDcVals[8] == 8;
    } else if c == 9 {
      assert ChromaDcVals[9] == 9;
    } else if c == 10 {
      assert ChromaDcVals[10] == 10;
    } else if c == 11 {
      assert ChromaDcVals[11] == 11;
    }
  }

  /** The composite AC symbols a baseline coder can send: EOB, ZRL and (run << 4) | size with size 1..10. */
  ghost predicate AcSymbol(sym: nat)
  {
    sym == 0x00 || sym == 0xF0 || (sym < 256 && 1 <= sym % 16 <= 10)
  }

  /** Every well-formed token is announced by one of those symbols. */
  lemma TokenSymbols(t: AcToken)
    requires TokenInRange(t)
    ensures AcSymbol(Symbol(t))
  {
    if t.Run? {
      DivModUnique(Symbol(t), 16, t.zeros, Category(t.value));
    }
  }

  lemma LumaAcRun0(c: nat)
    requires 0 <= c <= 10
    ensures (0 + c) as uint8 in LumaAcVals
  {
    if c == 0 {
      assert LumaAcVals[3] == 0x00;
    } else if c == 1 {
      assert LumaAcVals[0] == 0x01;
    } else if c == 2 {
      assert LumaAcVals[1] == 0x02;
    } else if c == 3 {
      assert LumaAcVals[2] == 0x03;
    } else if c == 4 {
      assert LumaAcVals[4] == 0x04;
    } else if c == 5 {
      assert LumaAcVals[6] == 0x05;
    } else if c == 6 {
      assert LumaAcVals[11] == 0x06;
    } else if c == 7 {
      assert LumaAcVals[15] == 0x07;
    } else if c == 8 {
      assert LumaAcVals[23] == 0x08;
    } else if c == 9 {
      assert LumaAcVals[37] == 0x09;
    } else {
      assert LumaAcVals[38] == 0x0A;
    }
  }

  lemma LumaAcRun1(c: nat)
    requires 1 <= c <= 10
    ensures (16 + c) as uint8 in LumaAcVals
  {
    if c == 1 {
      assert LumaAcVals[5] == 0x11;
    } else if c == 2 {
      assert LumaAcVals[7] == 0x12;
    } else if c == 3 {
      assert LumaAcVals[12] == 0x13;
    } else if c == 4 {
      assert LumaAcVals[18] == 0x14;
    } else if c == 5 {
      assert LumaAcVals[28] == 0x15;
    } else if c == 6 {
      assert LumaAcVals[39] == 0x16;
    } else if c == 7 {
      assert LumaAcVals[40] == 0x17;
    } else if c == 8 {
      assert LumaAcVals[41] == 0x18;
    } else if c == 9 {
      assert LumaAcVals[42] == 0x19;
    } else {
      assert LumaAcVals[43] == 0x1A;
    }
  }

  lemma LumaAcRun2(c: nat)
    requires 1 <= c <= 10
    ensures (32 + c) as uint8 in LumaAcVals
  {
    if c == 1 {
      assert LumaAcVals[8] == 0x21;
    } else if c == 2 {
      assert LumaAcVals[16] == 0x22;
    } else if c == 3 {
      assert LumaAcVals[24] == 0x23;
    } else if c == 4 {
      assert LumaAcVals[32] == 0x24;
    } else if c == 5 {
      assert LumaAcVals[44] == 0x25;
    } else if c == 6 {
      assert LumaAcVals[45] == 0x26;
    } else if c == 7 {
      assert LumaAcVals[46] == 0x27;
    } else if c == 8 {
      assert LumaAcVals[47] == 0x28;
    } else if c == 9 {
      assert LumaAcVals[48] == 0x29;
    } else {
      assert LumaAcVals[49] == 0x2A;
    }
  }

  lemma LumaAcRun3(c: nat)
    requires 1 <= c <= 10
    ensures (48 + c) as uint8 in LumaAcVals
  {
    if c == 1 {
      assert LumaAcVals[9] == 0x31;
    } else if c == 2 {
      assert LumaAcVals[19] == 0x32;
    } else if c == 3 {
      assert LumaAcVals[33] == 0x33;
    } else if c == 4 {
      assert LumaAcVals[50] == 0x34;
    } else if c == 5 {
      assert LumaAcVals[51] == 0x35;
    } else if c == 6 {
      assert LumaAcVals[52] == 0x36;
    } else if c == 7 {
      assert LumaAcVals[53] == 0x37;
    } else if c == 8 {
      assert LumaAcVals[54] == 0x38;
    } else if c == 9 {
      assert LumaAcVals[55] == 0x39;
    } else {
      assert LumaAcVals[56] == 0x3A;
    }
  }

  lemma LumaAcRun4(c: nat)
    requires 1 <= c <= 10
    ensures (64 + c) as uint8 in LumaAcVals
  {
    if c == 1 {
      assert LumaAcVals[10] == 0x41;
    } else if c == 2 {
      assert LumaAcVals[25] == 0x42;
    } else if c == 3 {
      assert LumaAcVals[57] == 0x43;
    } else if c == 4 {
      assert LumaAcVals[58] == 0x44;
    } else if c == 5 {
      assert LumaAcVals[59] == 0x45;
    } else if c == 6 {
      assert LumaAcVals[60] == 0x46;
    } else if c == 7 {
      assert LumaAcVals[61] == 0x47;
    } else if c == 8 {
      assert LumaAcVals[62] == 0x48;
    } else if c == 9 {
      assert LumaAcVals[63] == 0x49;
    } else {
      assert LumaAcVals[64] == 0x4A;
    }
  }

  lemma LumaAcRun5(c: nat)
    requires 1 <= c <= 10
    ensures (80 + c) as uint8 in LumaAcVals
  {
    if c == 1 {
      assert LumaAcVals[13] == 0x51;
    } else if c == 2 {
      assert LumaAcVals[29] == 0x52;
    } else if c == 3 {
      assert LumaAcVals[65] == 0x53;
    } else if c == 4 {
      assert LumaAcVals[66] == 0x54;
    } else if c == 5 {
      assert LumaAcVals[67] == 0x55;
    } else if c == 6 {
      assert LumaAcVals[68] == 0x56;
    } else if c == 7 {
      assert LumaAcVals[69] == 0x57;
    } else if c == 8 {
      assert LumaAcVals[70] == 0x58;
    } else if c == 9 {
      assert LumaAcVals[71] == 0x59;
    } else {
      assert LumaAcVals[72] == 0x5A;
    }
  }

  lemma LumaAcRun6(c: nat)
    requires 1 <= c <= 10
    ensures (96 + c) as uint8 in LumaAcVals
  {
    if c == 1 {
      assert LumaAcVals[14] == 0x61;
    } else if c == 2 {
      assert LumaAcVals[34] == 0x62;
    } else if c == 3 {
      assert LumaAcVals[73] == 0x63;
    } else if c == 4 {
      assert LumaAcVals[74] == 0x64;
    } else if c == 5 {
      assert LumaAcVals[75] == 0x65;
    } else if c == 6 {
      assert LumaAcVals[76] == 0x66;
    } else if c == 7 {
      assert LumaAcVals[77] == 0x67;
    } else if c == 8 {
      assert LumaAcVals[78] == 0x68;
    } else if c == 9 {
      assert LumaAcVals[79] == 0x69;
    } else {
      assert LumaAcVals[80] == 0x6A;
    }
  }

  lemma LumaAcRun7(c: nat)
    requires 1 <= c <= 10
    ensures (112 + c) as uint8 in LumaAcVals
  {
    if c == 1 {
      assert LumaAcVals[17] == 0x71;
    } else if c == 2 {
      assert LumaAcVals[35] == 0x72;
    } else if c == 3 {
      assert LumaAcVals[81] == 0x73;
    } else if c == 4 {
      assert LumaAcVals[82] == 0x74;
    } else if c == 5 {
      assert LumaAcVals[83] == 0x75;
    } else if c == 6 {
      assert LumaAcVals[84] == 0x76;
    } else if c == 7 {
      assert LumaAcVals[85] == 0x77;
    } else if c == 8 {
      assert LumaAcVals[86] == 0x78;
    } else if c == 9 {
      assert LumaAcVals[87] == 0x79;
    } else {
      assert LumaAcVals[88] == 0x7A;
    }
  }

  lemma LumaAcRun8(c: nat)
    requires 1 <= c <= 10
    ensures (128 + c) as uint8 in LumaAcVals
  {
    if c == 1 {
      assert LumaAcVals[20] == 0x81;
    } else if c == 2 {
      assert LumaAcVals[36] == 0x82;
    } else if c == 3 {
      assert LumaAcVals[89] == 0x83;
    } else if c == 4 {
      assert LumaAcVals[90] == 0x84;
    } else if c == 5 {
      assert LumaAcVals[91] == 0x85;
    } else if c == 6 {
      assert LumaAcVals[92] == 0x86;
    } else if c == 7 {
      assert LumaAcVals[93] == 0x87;
    } else if c == 8 {
      assert LumaAcVals[94] == 0x88;
    } else if c == 9 {
      assert LumaAcVals[95] == 0x89;
    } else {
      assert LumaAcVals[96] == 0x8A;
    }
  }

  lemma LumaAcRun9(c: nat)
    requires 1 <= c <= 10
    ensures (144 + c) as uint8 in LumaAcVals
  {
    if c == 1 {
      assert LumaAcVals[21] == 0x91;
    } else if c == 2 {
      assert LumaAcVals[97] == 0x92;
    } else if c == 3 {
      assert LumaAcVals[98] == 0x93;
    } else if c == 4 {
      assert LumaAcVals[99] == 0x94;
    } else if c == 5 {
      assert LumaAcVals[100] == 0x95;
    } else if c == 6 {
      assert LumaAcVals[101] == 0x96;
    } else if c == 7 {
      assert LumaAcVals[102] == 0x97;
    } else if c == 8 {
      assert LumaAcVals[103] == 0x98;
    } else if c == 9 {
      assert LumaAcVals[104] == 0x99;
    } else {
      assert LumaAcVals[105] == 0x9A;
    }
  }

  lemma LumaAcRun10(c: nat)
    requires 1 <= c <= 10
    ensures (160 + c) as uint8 in LumaAcVals
  {
    if c == 1 {
      assert LumaAcVals[22] == 0xA1;
    } else if c == 2 {
      assert LumaAcVals[106] == 0xA2;
    } else if c == 3 {
      assert LumaAcVals[107] == 0xA3;
    } else if c == 4 {
      assert LumaAcVals[108] == 0xA4;
    } else if c == 5 {
      assert LumaAcVals[109] == 0xA5;
    } else if c == 6 {
      assert LumaAcVals[110] == 0xA6;
    } else if c == 7 {
      assert LumaAcVals[111] == 0xA7;
    } else if c == 8 {
      assert LumaAcVals[112] == 0xA8;
    } else if c == 9 {
      assert LumaAcVals[113] == 0xA9;
    } else {
      assert LumaAcVals[114] == 0xAA;
    }
  }

  lemma LumaAcRun11(c: nat)
    requires 1 <= c <= 10
    ensures (176 + c) as uint8 in LumaAcVals
  {
    if c == 1 {
      assert LumaAcVals[26] == 0xB1;
    } else if c == 2 {
      assert LumaAcVals[115] == 0xB2;
    } else if c == 3 {
      assert LumaAcVals[116] == 0xB3;
    } else if c == 4 {
      assert LumaAcVals[117] == 0xB4;
    } else if c == 5 {
      assert LumaAcVals[118] == 0xB5;
    } else if c == 6 {
      assert LumaAcVals[119] == 0xB6;
    } else if c == 7 {
      assert LumaAcVals[120] == 0xB7;
    } else if c == 8 {
      assert LumaAcVals[121] == 0xB8;
    } else if c == 9 {
      assert LumaAcVals[122] == 0xB9;
    } else {
      assert LumaAcVals[123] == 0xBA;
    }
  }

  lemma LumaAcRun12(c: nat)
    requires 1 <= c <= 10
    ensures (192 + c) as uint8 in LumaAcVals
  {
    if c == 1 {
      assert LumaAcVals[27] == 0xC1;
    } else if c == 2 {
      assert LumaAcVals[124] == 0xC2;
    } else if c == 3 {
      assert LumaAcVals[125] == 0xC3;
    } else if c == 4 {
      assert LumaAcVals[126] == 0xC4;
    } else if c == 5 {
      assert LumaAcVals[127] == 0xC5;
    } else if c == 6 {
      assert LumaAcVals[128] == 0xC6;
    } else if c == 7 {
      assert LumaAcVals[129] == 0xC7;
    } else if c == 8 {
      assert LumaAcVals[130] == 0xC8;
    } else if c == 9 {
      assert LumaAcVals[131] == 0xC9;
    } else {
      assert LumaAcVals[132] == 0xCA;
    }
  }

  lemma LumaAcRun13(c: nat)
    requires 1 <= c <= 10
    ensures (208 + c) as uint8 in LumaAcVals
  {
    if c == 1 {
      assert LumaAcVals[30] == 0xD1;
    } else if c == 2 {
      assert LumaAcVals[133] == 0xD2;
    } else if c == 3 {
      assert LumaAcVals[134] == 0xD3;
    } else if c == 4 {
      assert LumaAcVals[135] == 0xD4;
    } else if c == 5 {
      assert LumaAcVals[136] == 0xD5;
    } else if c == 6 {
      assert LumaAcVals[137] == 0xD6;
    } else if c == 7 {
      assert LumaAcVals[138] == 0xD7;
    } else if c == 8 {
      assert LumaAcVals[139] == 0xD8;
    } else if c == 9 {
      assert LumaAcVals[140] == 0xD9;
    } else {
      assert LumaAcVals[141] == 0xDA;
    }
  }

  lemma LumaAcRun14(c: nat)
    requires 1 <= c <= 10
    ensures (224 + c) as uint8 in LumaAcVals
  {
    if c == 1 {
      assert LumaAcVals[142] == 0xE1;
    } else if c == 2 {
      assert LumaAcVals[143] == 0xE2;
    } else if c == 3 {
      assert LumaAcVals[144] == 0xE3;
    } else if c == 4 {
      assert LumaAcVals[145] == 0xE4;
    } else if c == 5 {
      assert LumaAcVals[146] == 0xE5;
    } else if c == 6 {
      assert LumaAcVals[147] == 0xE6;
    } else if c == 7 {
      assert LumaAcVals[148] == 0xE7;
    } else if c == 8 {
      assert LumaAcVals[149] == 0xE8;
    } else if c == 9 {
      assert LumaAcVals[150] == 0xE9;
    } else {
      assert LumaAcVals[151] == 0xEA;
    }
  }

  lemma LumaAcRun15(c: nat)
    requires 0 <= c <= 10
    ensures (240 + c) as uint8 in LumaAcVals
  {
    if c == 0 {
      assert LumaAcVals[31] == 0xF0;
    } else if c == 1 {
      assert LumaAcVals[152] == 0xF1;
    } else if c == 2 {
      assert LumaAcVals[153] == 0xF2;
    } else if c == 3 {
      assert LumaAcVals[154] == 0xF3;
    } else if c == 4 {
      assert LumaAcVals[155] == 0xF4;
    } else if c == 5 {
      assert LumaAcVals[156] == 0xF5;
    } else if c == 6 {
      assert LumaAcVals[157] == 0xF6;
    } else if c == 7 {
      assert LumaAcVals[158] == 0xF7;
    } else if c == 8 {
      assert LumaAcVals[159] == 0xF8;
    } else if c == 9 {
      assert LumaAcVals[160] == 0xF9;
    } else {
      assert LumaAcVals[161] == 0xFA;
    }
  }

  /** Every AC symbol a baseline coder can send is listed in LumaAcVals. */
  lemma LumaAcListed(sym: nat)
    requires AcSymbol(sym)
    ensures sym as uint8 in LumaAcVals
  {
    if sym < 0x40 {
      LumaAcListedQuarter0(sym);
    } else if sym < 0x80 {
      LumaAcListedQuarter1(sym);
    } else if sym < 0xC0 {
      LumaAcListedQuarter2(sym);
    } else {
      LumaAcListedQuarter3(sym);
    }
  }

  lemma LumaAcListedQuarter0(sym: nat)
    requires AcSymbol(sym) && 0 <= sym < 64
    ensures sym as uint8 in LumaAcVals
  {
    if sym < 16 {
      DivModUnique(sym, 16, 0, sym - 0);
      LumaAcRun0(sym - 0);
    } else if sym < 32 {
      DivModUnique(sym, 16, 1, sym - 16);
      LumaAcRun1(sym - 16);
    } else if sym < 48 {
      DivModUnique(sym, 16, 2, sym - 32);
      LumaAcRun2(sym - 32);
    } else {
      DivModUnique(sym, 16, 3, sym - 48);
      LumaAcRun3(sym - 48);
    }
  }

  lemma LumaAcListedQuarter1(sym: nat)
    requires AcSymbol(sym) && 64 <= sym < 128
    ensures sym as uint8 in LumaAcVals
  {
    if sym < 80 {
      DivModUnique(sym, 16, 4, sym - 64);
      LumaAcRun4(sym - 64);
    } else if sym < 96 {
      DivModUnique(sym, 16, 5, sym - 80);
      LumaAcRun5(sym - 80);
    } else if sym < 112 {
      DivModUnique(sym, 16, 6, sym - 96);
      LumaAcRun6(sym - 96);
    } else {
      DivModUnique(sym, 16, 7, sym - 112);
      LumaAcRun7(sym - 112);
    }
  }

  lemma LumaAcListedQuarter2(sym: nat)
    requires AcSymbol(sym) && 128 <= sym < 192
    ensures sym as uint8 in LumaAcVals
  {
    if sym < 144 {
      DivModUnique(sym, 16, 8, sym - 128);
      LumaAcRun8(sym - 128);
    } else if sym < 160 {
      DivModUnique(sym, 16, 9, sym - 144);
      LumaAcRun9(sym - 144);
    } else if sym < 176 {
      DivModUnique(sym, 16, 10, sym - 160);
      LumaAcRun10(sym - 160);
    } else {
      DivModUnique(sym, 16, 11, sym - 176);
      LumaAcRun11(sym - 176);
    }
  }

  lemma LumaAcListedQuarter3(sym: nat)
    requires AcSymbol(sym) && 192 <= sym < 256
    ensures sym as uint8 in LumaAcVals
  {
    if sym < 208 {
      DivModUnique(sym, 16, 12, sym - 192);
      LumaAcRun12(sym - 192);
    } else if sym < 224 {
      DivModUnique(sym, 16, 13, sym - 208);
      LumaAcRun13(sym - 208);
    } else if sym < 240 {
      DivModUnique(sym, 16, 14, sym - 224);
      LumaAcRun14(sym - 224);
    } else {
      DivModUnique(sym, 16, 15, sym - 240);
      LumaAcRun15(sym - 240);
    }
  }

  lemma ChromaAcRun0(c: nat)
    requires 0 <= c <= 10
    ensures (0 + c) as uint8 in ChromaAcVals
  {
    if c == 0 {
      assert ChromaAcVals[0] == 0x00;
    } else if c == 1 {
      assert ChromaAcVals[1] == 0x01;
    } else if c == 2 {
      assert ChromaAcVals[2] == 0x02;
    } else if c == 3 {
      assert ChromaAcVals[3] == 0x03;
    } else if c == 4 {
      assert ChromaAcVals[5] == 0x04;
    } else if c == 5 {
      assert ChromaAcVals[6] == 0x05;
    } else if c == 6 {
      assert ChromaAcVals[9] == 0x06;
    } else if c == 7 {
      assert ChromaAcVals[13] == 0x07;
    } else if c == 8 {
      assert ChromaAcVals[20] == 0x08;
    } else if c == 9 {
      assert ChromaAcVals[27] == 0x09;
    } else {
      assert ChromaAcVals[36] == 0x0A;
    }
  }

  lemma ChromaAcRun1(c: nat)
    requires 1 <= c <= 10
    ensures (16 + c) as uint8 in ChromaAcVals
  {
    if c == 1 {
      assert ChromaAcVals[4] == 0x11;
    } else if c == 2 {
      assert ChromaAcVals[10] == 0x12;
    } else if c == 3 {
      assert ChromaAcVals[16] == 0x13;
    } else if c == 4 {
      assert ChromaAcVals[21] == 0x14;
    } else if c == 5 {
      assert ChromaAcVals[32] == 0x15;
    } else if c == 6 {
      assert ChromaAcVals[37] == 0x16;
    } else if c == 7 {
      assert ChromaAcVals[43] == 0x17;
    } else if c == 8 {
      assert ChromaAcVals[44] == 0x18;
    } else if c == 9 {
      assert ChromaAcVals[45] == 0x19;
    } else {
      assert ChromaAcVals[46] == 0x1A;
    }
  }

  lemma ChromaAcRun2(c: nat)
    requires 1 <= c <= 10
    ensures (32 + c) as uint8 in ChromaAcVals
  {
    if c == 1 {
      assert ChromaAcVals[7] == 0x21;
    } else if c == 2 {
      assert ChromaAcVals[17] == 0x22;
    } else if c == 3 {
      assert ChromaAcVals[28] == 0x23;
    } else if c == 4 {
      assert ChromaAcVals[38] == 0x24;
    } else if c == 5 {
      assert ChromaAcVals[41] == 0x25;
    } else if c == 6 {
      assert ChromaAcVals[47] == 0x26;
    } else if c == 7 {
      assert ChromaAcVals[48] == 0x27;
    } else if c == 8 {
      assert ChromaAcVals[49] == 0x28;
    } else if c == 9 {
      assert ChromaAcVals[50] == 0x29;
    } else {
      assert ChromaAcVals[51] == 0x2A;
    }
  }

  lemma ChromaAcRun3(c: nat)
    requires 1 <= c <= 10
    ensures (48 + c) as uint8 in ChromaAcVals
  {
    if c == 1 {
      assert ChromaAcVals[8] == 0x31;
    } else if c == 2 {
      assert ChromaAcVals[18] == 0x32;
    } else if c == 3 {
      assert ChromaAcVals[29] == 0x33;
    } else if c == 4 {
      assert ChromaAcVals[39] == 0x34;
    } else if c == 5 {
      assert ChromaAcVals[52] == 0x35;
    } else if c == 6 {
      assert ChromaAcVals[53] == 0x36;
    } else if c == 7 {
      assert ChromaAcVals[54] == 0x37;
    } else if c == 8 {
      assert ChromaAcVals[55] == 0x38;
    } else if c == 9 {
      assert ChromaAcVals[56] == 0x39;
    } else {
      assert ChromaAcVals[57] == 0x3A;
    }
  }

  lemma ChromaAcRun4(c: nat)
    requires 1 <= c <= 10
    ensures (64 + c) as uint8 in ChromaAcVals
  {
    if c == 1 {
      assert ChromaAcVals[11] == 0x41;
    } else if c == 2 {
      assert ChromaAcVals[22] == 0x42;
    } else if c == 3 {
      assert ChromaAcVals[58] == 0x43;
    } else if c == 4 {
      assert ChromaAcVals[59] == 0x44;
    } else if c == 5 {
      assert ChromaAcVals[60] == 0x45;
    } else if c == 6 {
      assert ChromaAcVals[61] == 0x46;
    } else if c == 7 {
      assert ChromaAcVals[62] == 0x47;
    } else if c == 8 {
      assert ChromaAcVals[63] == 0x48;
    } else if c == 9 {
      assert ChromaAcVals[64] == 0x49;
    } else {
      assert ChromaAcVals[65] == 0x4A;
    }
  }

  lemma ChromaAcRun5(c: nat)
    requires 1 <= c <= 10
    ensures (80 + c) as uint8 in ChromaAcVals
  {
    if c == 1 {
      assert ChromaAcVals[12] == 0x51;
    } else if c == 2 {
      assert ChromaAcVals[30] == 0x52;
    } else if c == 3 {
      assert ChromaAcVals[66] == 0x53;
    } else if c == 4 {
      assert ChromaAcVals[67] == 0x54;
    } else if c == 5 {
      assert ChromaAcVals[68] == 0x55;
    } else if c == 6 {
      assert ChromaAcVals[69] == 0x56;
    } else if c == 7 {
      assert ChromaAcVals[70] == 0x57;
    } else if c == 8 {
      assert ChromaAcVals[71] == 0x58;
    } else if c == 9 {
      assert ChromaAcVals[72] == 0x59;
    } else {
      assert ChromaAcVals[73] == 0x5A;
    }
  }

  lemma ChromaAcRun6(c: nat)
    requires 1 <= c <= 10
    ensures (96 + c) as uint8 in ChromaAcVals
  {
    if c == 1 {
      assert ChromaAcVals[14] == 0x61;
    } else if c == 2 {
      assert ChromaAcVals[33] == 0x62;
    } else if c == 3 {
      assert ChromaAcVals[74] == 0x63;
    } else if c == 4 {
      assert ChromaAcVals[75] == 0x64;
    } else if c == 5 {
      assert ChromaAcVals[76] == 0x65;
    } else if c == 6 {
      assert ChromaAcVals[77] == 0x66;
    } else if c == 7 {
      assert ChromaAcVals[78] == 0x67;
    } else if c == 8 {
      assert ChromaAcVals[79] == 0x68;
    } else if c == 9 {
      assert ChromaAcVals[80] == 0x69;
    } else {
      assert ChromaAcVals[81] == 0x6A;
    }
  }

  lemma ChromaAcRun7(c: nat)
    requires 1 <= c <= 10
    ensures (112 + c) as uint8 in ChromaAcVals
  {
    if c == 1 {
      assert ChromaAcVals[15] == 0x71;
    } else if c == 2 {
      assert ChromaAcVals[34] == 0x72;
    } else if c == 3 {
      assert ChromaAcVals[82] == 0x73;
    } else if c == 4 {
      assert ChromaAcVals[83] == 0x74;
    } else if c == 5 {
      assert ChromaAcVals[84] == 0x75;
    } else if c == 6 {
      assert ChromaAcVals[85] == 0x76;
    } else if c == 7 {
      assert ChromaAcVals[86] == 0x77;
    } else if c == 8 {
      assert ChromaAcVals[87] == 0x78;
    } else if c == 9 {
      assert ChromaAcVals[88] == 0x79;
    } else {
      assert ChromaAcVals[89] == 0x7A;
    }
  }

  lemma ChromaAcRun8(c: nat)
    requires 1 <= c <= 10
    ensures (128 + c) as uint8 in ChromaAcVals
  {
    if c == 1 {
      assert ChromaAcVals[19] == 0x81;
    } else if c == 2 {
      assert ChromaAcVals[90] == 0x82;
    } else if c == 3 {
      assert ChromaAcVals[91] == 0x83;
    } else if c == 4 {
      assert ChromaAcVals[92] == 0x84;
    } else if c == 5 {
      assert ChromaAcVals[93] == 0x85;
    } else if c == 6 {
      assert ChromaAcVals[94] == 0x86;
    } else if c == 7 {
      assert ChromaAcVals[95] == 0x87;
    } else if c == 8 {
      assert ChromaAcVals[96] == 0x88;
    } else if c == 9 {
      assert ChromaAcVals[97] == 0x89;
    } else {
      assert ChromaAcVals[98] == 0x8A;
    }
  }

  lemma ChromaAcRun9(c: nat)
    requires 1 <= c <= 10
    ensures (144 + c) as uint8 in ChromaAcVals
  {
    if c == 1 {
      assert ChromaAcVals[23] == 0x91;
    } else if c == 2 {
      assert ChromaAcVals[99] == 0x92;
    } else if c == 3 {
      assert ChromaAcVals[100] == 0x93;
    } else if c == 4 {
      assert ChromaAcVals[101] == 0x94;
    } else if c == 5 {
      assert ChromaAcVals[102] == 0x95;
    } else if c == 6 {
      assert ChromaAcVals[103] == 0x96;
    } else if c == 7 {
      assert ChromaAcVals[104] == 0x97;
    } else if c == 8 {
      assert ChromaAcVals[105] == 0x98;
    } else if c == 9 {
      assert ChromaAcVals[106] == 0x99;
    } else {
      assert ChromaAcVals[107] == 0x9A;
    }
  }

  lemma ChromaAcRun10(c: nat)
    requires 1 <= c <= 10
    ensures (160 + c) as uint8 in ChromaAcVals
  {
    if c == 1 {
      assert ChromaAcVals[24] == 0xA1;
    } else if c == 2 {
      assert ChromaAcVals[108] == 0xA2;
    } else if c == 3 {
      assert ChromaAcVals[109] == 0xA3;
    } else if c == 4 {
      assert ChromaAcVals[110] == 0xA4;
    } else if c == 5 {
      assert ChromaAcVals[111] == 0xA5;
    } else if c == 6 {
      assert ChromaAcVals[112] == 0xA6;
    } else if c == 7 {
      assert ChromaAcVals[113] == 0xA7;
    } else if c == 8 {
      assert ChromaAcVals[114] == 0xA8;
    } else if c == 9 {
      assert ChromaAcVals[115] == 0xA9;
    } else {
      assert ChromaAcVals[116] == 0xAA;
    }
  }

  lemma ChromaAcRun11(c: nat)
    requires 1 <= c <= 10
    ensures (176 + c) as uint8 in ChromaAcVals
  {
    if c == 1 {
      assert ChromaAcVals[25] == 0xB1;
    } else if c == 2 {
      assert ChromaAcVals[117] == 0xB2;
    } else if c == 3 {
      assert ChromaAcVals[118] == 0xB3;
    } else if c == 4 {
      assert ChromaAcVals[119] == 0xB4;
    } else if c == 5 {
      assert ChromaAcVals[120] == 0xB5;
    } else if c == 6 {
      assert ChromaAcVals[121] == 0xB6;
    } else if c == 7 {
      assert ChromaAcVals[122] == 0xB7;
    } else if c == 8 {
      assert ChromaAcVals[123] == 0xB8;
    } else if c == 9 {
      assert ChromaAcVals[124] == 0xB9;
    } else {
      assert ChromaAcVals[125] == 0xBA;
    }
  }

  lemma ChromaAcRun12(c: nat)
    requires 1 <= c <= 10
    ensures (192 + c) as uint8 in ChromaAcVals
  {
    if c == 1 {
      assert ChromaAcVals[26] == 0xC1;
    } else if c == 2 {
      assert ChromaAcVals[126] == 0xC2;
    } else if c == 3 {
      assert ChromaAcVals[127] == 0xC3;
    } else if c == 4 {
      assert ChromaAcVals[128] == 0xC4;
    } else if c == 5 {
      assert ChromaAcVals[129] == 0xC5;
    } else if c == 6 {
      assert ChromaAcVals[130] == 0xC6;
    } else if c == 7 {
      assert ChromaAcVals[131] == 0xC7;
    } else if c == 8 {
      assert ChromaAcVals[132] == 0xC8;
    } else if c == 9 {
      assert ChromaAcVals[133] == 0xC9;
    } else {
      assert ChromaAcVals[134] == 0xCA;
    }
  }

  lemma ChromaAcRun13(c: nat)
    requires 1 <= c <= 10
    ensures (208 + c) as uint8 in ChromaAcVals
  {
    if c == 1 {
      assert ChromaAcVals[35] == 0xD1;
    } else if c == 2 {
      assert ChromaAcVals[135] == 0xD2;
    } else if c == 3 {
      assert ChromaAcVals[136] == 0xD3;
    } else if c == 4 {
      assert ChromaAcVals[137] == 0xD4;
    } else if c == 5 {
      assert ChromaAcVals[138] == 0xD5;
    } else if c == 6 {
      assert ChromaAcVals[139] == 0xD6;
    } else if c == 7 {
      assert ChromaAcVals[140] == 0xD7;
    } else if c == 8 {
      assert ChromaAcVals[141] == 0xD8;
    } else if c == 9 {
      assert ChromaAcVals[142] == 0xD9;
    } else {
      assert ChromaAcVals[143] == 0xDA;
    }
  }

  lemma ChromaAcRun14(c: nat)
    requires 1 <= c <= 10
    ensures (224 + c) as uint8 in ChromaAcVals
  {
    if c == 1 {
      assert ChromaAcVals[40] == 0xE1;
    } else if c == 2 {
      assert ChromaAcVals[144] == 0xE2;
    } else if c == 3 {
      assert ChromaAcVals[145] == 0xE3;
    } else if c == 4 {
      assert ChromaAcVals[146] == 0xE4;
    } else if c == 5 {
      assert ChromaAcVals[147] == 0xE5;
    } else if c == 6 {
      assert ChromaAcVals[148] == 0xE6;
    } else if c == 7 {
      assert ChromaAcVals[149] == 0xE7;
    } else if c == 8 {
      assert ChromaAcVals[150] == 0xE8;
    } else if c == 9 {
      assert ChromaAcVals[151] == 0xE9;
    } else {
      assert ChromaAcVals[152] == 0xEA;
    }
  }

  lemma ChromaAcRun15(c: nat)
    requires 0 <= c <= 10
    ensures (240 + c) as uint8 in ChromaAcVals
  {
    if c == 0 {
      assert ChromaAcVals[31] == 0xF0;
    } else if c == 1 {
      assert ChromaAcVals[42] == 0xF1;
    } else if c == 2 {
      assert ChromaAcVals[153] == 0xF2;
    } else if c == 3 {
      assert ChromaAcVals[154] == 0xF3;
    } else if c == 4 {
      assert ChromaAcVals[155] == 0xF4;
    } else if c == 5 {
      assert ChromaAcVals[156] == 0xF5;
    } else if c == 6 {
      assert ChromaAcVals[157] == 0xF6;
    } else if c == 7 {
      assert ChromaAcVals[158] == 0xF7;
    } else if c == 8 {
      assert ChromaAcVals[159] == 0xF8;
    } else if c == 9 {
      assert ChromaAcVals[160] == 0xF9;
    } else {
      assert ChromaAcVals[161] == 0xFA;
    }
  }

  /** Every AC symbol a baseline coder can send is listed in ChromaAcVals. */
  lemma ChromaAcListed(sym: nat)
    requires AcSymbol(sym)
    ensures sym as uint8 in ChromaAcVals
  {
    if sym < 0x40 {
      ChromaAcListedQuarter0(sym);
    } else if sym < 0x80 {
      ChromaAcListedQuarter1(sym);
    } else if sym < 0xC0 {
      ChromaAcListedQuarter2(sym);
    } else {
      ChromaAcListedQuarter3(sym);
    }
  }

  lemma ChromaAcListedQuarter0(sym: nat)
    requires AcSymbol(sym) && 0 <= sym < 64
    ensures sym as uint8 in ChromaAcVals
  {
    if sym < 16 {
      DivModUnique(sym, 16, 0, sym - 0);
      ChromaAcRun0(sym - 0);
    } else if sym < 32 {
      DivModUnique(sym, 16, 1, sym - 16);
      ChromaAcRun1(sym - 16);
    } else if sym < 48 {
      DivModUnique(sym, 16, 2, sym - 32);
      ChromaAcRun2(sym - 32);
    } else {
      DivModUnique(sym, 16, 3, sym - 48);
      ChromaAcRun3(sym - 48);
    }
  }

  lemma ChromaAcListedQuarter1(sym: nat)
    requires AcSymbol(sym) && 64 <= sym < 128
    ensures sym as uint8 in ChromaAcVals
  {
    if sym < 80 {
      DivModUnique(sym, 16, 4, sym - 64);
      ChromaAcRun4(sym - 64);
    } else if sym < 96 {
      DivModUnique(sym, 16, 5, sym - 80);
      ChromaAcRun5(sym - 80);
    } else if sym < 112 {
      DivModUnique(sym, 16, 6, sym - 96);
      ChromaAcRun6(sym - 96);
    } else {
      DivModUnique(sym, 16, 7, sym - 112);
      ChromaAcRun7(sym - 112);
    }
  }

  lemma ChromaAcListedQuarter2(sym: nat)
    requires AcSymbol(sym) && 128 <= sym < 192
    ensures sym as uint8 in ChromaAcVals
  {
    if sym < 144 {
      DivModUnique(sym, 16, 8, sym - 128);
      ChromaAcRun8(sym - 128);
    } else if sym < 160 {
      DivModUnique(sym, 16, 9, sym - 144);
      ChromaAcRun9(sym - 144);
    } else if sym < 176 {
      DivModUnique(sym, 16, 10, sym - 160);
      ChromaAcRun10(sym - 160);
    } else {
      DivModUnique(sym, 16, 11, sym - 176);
      ChromaAcRun11(sym - 176);
    }
  }

  lemma ChromaAcListedQuarter3(sym: nat)
    requires AcSymbol(sym) && 192 <= sym < 256
    ensures sym as uint8 in ChromaAcVals
  {
    if sym < 208 {
      DivModUnique(sym, 16, 12, sym - 192);
      ChromaAcRun12(sym - 192);
    } else if sym < 224 {
      DivModUnique(sym, 16, 13, sym - 208);
      ChromaAcRun13(sym - 208);
    } else if sym < 240 {
      DivModUnique(sym, 16, 14, sym - 224);
      ChromaAcRun14(sym - 224);
    } else {
      DivModUnique(sym, 16, 15, sym - 240);
      ChromaAcRun15(sym - 240);
    }
  }

  /** ht_bits after tjei_huff_expand: the default specifications in the order luma DC, luma AC, chroma DC, chroma AC. */
  const DefaultHtBits: seq<seq<uint8>> := [LumaDcBits, LumaAcBits, ChromaDcBits, ChromaAcBits]

  /** ht_vals after tjei_huff_expand, in the same order. */
  const DefaultHtVals: seq<seq<uint8>> := [LumaDcVals, LumaAcVals, ChromaDcVals, ChromaAcVals]

  /** An AC table that gives every composite symbol a baseline coder can send a code. */
  ghost predicate AcReady(t: HuffTable)
  {
    Sound(t) && forall sym :: AcSymbol(sym) ==> Covers(t, sym)
  }

  /** A DC table that gives every category 0..11 of a baseline DC difference a code. */
  ghost predicate DcReady(t: HuffTable)
  {
    Sound(t) && forall c :: 0 <= c <= 11 ==> Covers(t, c)
  }

  /** The default luma DC specification expands to a table with a code for every DC category 0..11. */
  lemma LumaDcReady()
    ensures |LumaDcBits| == 16 && Total(LumaDcBits, 16) == |LumaDcVals| && DcReady(Expand(LumaDcBits, LumaDcVals))
  {
    LumaDcSpec();
    assert forall c: uint8 :: c <= 11 ==> c in LumaDcVals by {
      forall c: uint8 | c <= 11
        ensures c in LumaDcVals
      {
        LumaDcListed(c as nat);
      }
    }
    DcReadyFrom(LumaDcBits, LumaDcVals);
  }

  /** The default chroma DC specification expands to a table with a code for every DC category 0..11. */
  lemma ChromaDcReady()
    ensures |ChromaDcBits| == 16 && Total(ChromaDcBits, 16) == |ChromaDcVals| && DcReady(Expand(ChromaDcBits, ChromaDcVals))
  {
    ChromaDcSpec();
    assert forall c: uint8 :: c <= 11 ==> c in ChromaDcVals by {
      forall c: uint8 | c <= 11
        ensures c in ChromaDcVals
      {
        ChromaDcListed(c as nat);
      }
    }
    DcReadyFrom(ChromaDcBits, ChromaDcVals);
  }

  /** The default luma AC specification expands to a table with a code for every baseline AC symbol. */
  lemma LumaAcReady()
    ensures |LumaAcBits| == 16 && Total(LumaAcBits, 16) == |LumaAcVals| && AcReady(Expand(LumaAcBits, LumaAcVals))
  {
    LumaAcSpec();
    assert forall sym :: AcSymbol(sym) ==> sym as uint8 in LumaAcVals by {
      forall sym | AcSymbol(sym)
        ensures sym as uint8 in LumaAcVals
      {
        LumaAcListed(sym);
      }
    }
    AcReadyFrom(LumaAcBits, LumaAcVals);
  }

  /** The default chroma AC specification expands to a table with a code for every baseline AC symbol. */
  lemma ChromaAcReady()
    ensures |ChromaAcBits| == 16 && Total(ChromaAcBits, 16) == |ChromaAcVals| && AcReady(Expand(ChromaAcBits, ChromaAcVals))
  {
    ChromaAcSpec();
    assert forall sym :: AcSymbol(sym) ==> sym as uint8 in ChromaAcVals by {
      forall sym | AcSymbol(sym)
        ensures sym as uint8 in ChromaAcVals
      {
        ChromaAcListed(sym);
      }
    }
    AcReadyFrom(ChromaAcBits, ChromaAcVals);
  }


  /** A specification satisfying Kraft's inequality that lists the categories 0..11 expands to a DC-ready table. */
  lemma DcReadyFrom(bits: seq<uint8>, vals: seq<uint8>)
    requires |bits| == 16 && Total(bits, 16) == |vals| && CountsKraft(bits, 16) <= Pow2(16)
    requires forall c: uint8 :: c <= 11 ==> c in vals
    ensures DcReady(Expand(bits, vals))
  {
    ExpandSound(bits, vals);
    assert vals[..Total(bits, 16)] == vals;
    forall c | 0 <= c <= 11
      ensures Covers(Expand(bits, vals), c)
    {
      ExpandCovers(bits, vals, c as uint8);
    }
  }

  /** A specification satisfying Kraft's inequality that lists every baseline AC symbol expands to an AC-ready table. */
  lemma AcReadyFrom(bits: seq<uint8>, vals: seq<uint8>)
    requires |bits| == 16 && Total(bits, 16) == |vals| && CountsKraft(bits, 16) <= Pow2(16)
    requires forall sym :: AcSymbol(sym) ==> sym as uint8 in vals
    ensures AcReady(Expand(bits, vals))
  {
    ExpandSound(bits, vals);
    assert vals[..Total(bits, 16)] == vals;
    forall sym | AcSymbol(sym)
      ensures Covers(Expand(bits, vals), sym)
    {
      ExpandCovers(bits, vals, sym as uint8);
    }
  }

  /** No entry of the default quantization tables is below 10. */
  lemma DefaultQtAtLeastTen()
    ensures |QtLumaFromSpec| == 64 && |QtChromaFromPaper| == 64
    ensures forall i :: 0 <= i < 64 ==> QtLumaFromSpec[i] >= 10 && QtChromaFromPaper[i] >= 10
  {
    QtLumaMembers();
    QtChromaMembers();
    AtLeastTen(QtLumaFromSpec);
    AtLeastTen(QtChromaFromPaper);
  }

  lemma AtLeastTen(t: seq<uint8>)
    requires |t| == 64 && forall v :: v in t ==> v >= 10
    ensures forall i :: 0 <= i < 64 ==> t[i] >= 10
  {
    forall i | 0 <= i < 64
      ensures t[i] >= 10
    {
      assert t[i] in t;
    }
  }

  lemma QtLengths()
    ensures |QtLumaFromSpec| == 64 && |QtChromaFromPaper| == 64
  {
  }

  lemma QtLumaMembers()
    ensures |QtLumaFromSpec| == 64 && forall v :: v in QtLumaFromSpec ==> v >= 10
  {
  }

  lemma QtChromaMembers()
    ensures |QtChromaFromPaper| == 64 && forall v :: v in QtChromaFromPaper ==> v >= 10
  {
  }

}

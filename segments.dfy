/**
 * The marker segments the encoder writes in front of the entropy-coded data
 * (Annex B of ITU-T T.81 and the JFIF APP0 record), as the byte sequences
 * that reach the output, and the layout of a whole file.
 */
module Segments {
  import opened Arith
  import opened BitStream
  import opened Huffman
  import opened JpegTables

  /**
   * tjei_be_word: the two bytes of a 16-bit value in the order they reach
   * the stream, most significant first, whatever the host byte order.
   */
  function BeWord(w: nat): (r: seq<uint8>)
    requires w < 0x1_0000
    ensures |r| == 2
  {
    [(w / 0x100) as uint8, (w % 0x100) as uint8]
  }

  /** How a decoder reads a 16-bit field: most significant byte first. */
  function ReadWord(hi: uint8, lo: uint8): nat
  {
    hi as nat * 0x100 + lo as nat
  }

  /** Reading back a written word gives the word, and every byte pair is the writing of the word it spells. */
  lemma BeWordRoundTrip(w: nat, hi: uint8, lo: uint8)
    requires w < 0x1_0000
    ensures ReadWord(BeWord(w)[0], BeWord(w)[1]) == w
    ensures ReadWord(hi, lo) < 0x1_0000 && BeWord(ReadWord(hi, lo)) == [hi, lo]
  {
    DivModUnique(ReadWord(hi, lo), 0x100, hi as nat, lo as nat);
  }

  /** ASCII text as the bytes that represent it. */
  function Ascii(s: string): (r: seq<uint8>)
    requires forall i :: 0 <= i < |s| ==> s[i] as int < 128
    ensures |r| == |s| && forall i :: 0 <= i < |s| ==> r[i] as int == s[i] as int
  {
    seq(|s|, i requires 0 <= i < |s| => s[i] as int as uint8)
  }

  /** The bytes of a marker: 0xFF and its code. */
  function Marker(code: uint8): (r: seq<uint8>)
  {
    [0xFF, code]
  }

  /**
   * The JFIF APP0 segment of TJEJPEGHeader: identifier "JFIF", version
   * 1.02, density in dots per inch, 96 by 96, no thumbnail. Its length
   * field is sizeof(TJEJPEGHeader) - 4, the record without SOI and APP0.
   */
  function App0Segment(): seq<uint8>
  {
    Marker(0xE0) + BeWord(16) + Ascii("JFIF") + [0x00] + BeWord(0x0102) + [0x01]
    + BeWord(0x0060) + BeWord(0x0060) + [0x00, 0x00]
  }

  /** TJEJPEGComment: the COM segment, length 2 + 28. */
  function CommentSegment(): seq<uint8>
  {
    Marker(0xFE) + BeWord(30) + Ascii("Created by Tiny JPEG Encoder")
  }

  /** tjei_write_DQT: length 0x43, precision 0 (8-bit entries) with the table id, then the 64 entries. */
  function DqtSegment(matrix: seq<uint8>, id: uint8): seq<uint8>
  {
    Marker(0xDB) + BeWord(0x43) + [id] + matrix
  }

  /**
   * TJEFrameHeader: SOF0, length 8 + 3 * 3, 8-bit precision, the height
   * and width truncated to 16 bits, and three components 1, 2, 3 with
   * sampling factors 1x1 using quantization tables 0, 1, 1.
   */
  function FrameHeader(width: int, height: int): seq<uint8>
  {
    Marker(0xC0) + BeWord(17) + [8] + BeWord(height % 0x1_0000) + BeWord(width % 0x1_0000) + [3]
    + [1, 0x11, 0] + [2, 0x11, 1] + [3, 0x11, 1]
  }

  /**
   * tjei_write_DHT: length 2 + 1 + 16 + the number of values, the class
   * (0 for DC, 1 for AC) in the high nibble and the id in the low one, the
   * 16 counts, then the values they count.
   */
  function DhtSegment(bits: seq<uint8>, vals: seq<uint8>, tableClass: nat, id: nat): seq<uint8>
    requires |bits| == 16 && Total(bits, 16) <= |vals| && tableClass < 2 && id < 4
  {
    var n := Total(bits, 16);
    Marker(0xC4) + BeWord(19 + n) + [(tableClass * 16 + id) as uint8] + bits + vals[..n]
  }

  /**
   * TJEScanHeader: SOS, length 6 + 2 * 3, the three components with DC/AC
   * table selectors 0/0, 1/1, 1/1, spectral selection 0..63 and no
   * successive approximation.
   */
  function ScanHeader(): seq<uint8>
  {
    Marker(0xDA) + BeWord(12) + [3] + [1, 0x00] + [2, 0x11] + [3, 0x11] + [0, 63, 0]
  }

  /**
   * Four Huffman specifications in the order luma DC, luma AC, chroma DC,
   * chroma AC: 16 counts each, and at least as many values as they count.
   */
  ghost predicate HuffSpecs(bits: seq<seq<uint8>>, vals: seq<seq<uint8>>)
  {
    && |bits| == 4 && |vals| == 4
    && forall i :: 0 <= i < 4 ==> |bits[i]| == 16 && Total(bits[i], 16) <= |vals[i]|
  }

  /**
   * The DHT segment of specification i: class i % 2 (DC or AC) and id
   * i / 2 (luma or chroma).
   */
  function SpecDht(bits: seq<seq<uint8>>, vals: seq<seq<uint8>>, i: nat): seq<uint8>
    requires HuffSpecs(bits, vals) && i < 4
  {
    DhtSegment(bits[i], vals[i], i % 2, i / 2)
  }

  /** Everything tjei_encode_main writes before the first MCU, in order, for the Huffman specifications the state holds. */
  function Headers(width: int, height: int, qtLuma: seq<uint8>, qtChroma: seq<uint8>,
                   bits: seq<seq<uint8>>, vals: seq<seq<uint8>>): seq<uint8>
    requires HuffSpecs(bits, vals)
  {
    Marker(0xD8) + App0Segment() + CommentSegment()
    + DqtSegment(qtLuma, 0) + DqtSegment(qtChroma, 1) + FrameHeader(width, height)
    + SpecDht(bits, vals, 0) + SpecDht(bits, vals, 1) + SpecDht(bits, vals, 2) + SpecDht(bits, vals, 3)
    + ScanHeader()
  }

  /** The scan bits completed to a whole byte with 0 bits, as the final tjei_write_bits does. */
  function Padded(bits: seq<bool>): (r: seq<bool>)
    ensures |r| % 8 == 0 && |bits| <= |r| < |bits| + 8 && r[..|bits|] == bits
    ensures forall i :: |bits| <= i < |r| ==> !r[i]
  {
    bits + Zeros((8 - |bits| % 8) % 8)
  }

  /**
   * The final tjei_write_bits: with `location` = |bits| % 8 bits pending,
   * 8 - location zero bits complete the byte, and nothing is added when
   * no bit is pending.
   */
  lemma PaddedByLocation(bits: seq<bool>, location: nat)
    requires location == |bits| % 8
    ensures 0 < location ==> Padded(bits) == bits + BitsOf(0, 8 - location)
    ensures location == 0 ==> Padded(bits) == bits
  {
    ZeroBits((8 - location) % 8);
    if location == 0 {
      assert bits + [] == bits;
    }
  }

  /** A whole file: the headers, the stuffed scan bytes and EOI. */
  function JpegFile(width: int, height: int, qtLuma: seq<uint8>, qtChroma: seq<uint8>,
                    bits: seq<seq<uint8>>, vals: seq<seq<uint8>>, scan: seq<bool>): seq<uint8>
    requires HuffSpecs(bits, vals)
  {
    Headers(width, height, qtLuma, qtChroma, bits, vals) + Stuff(PackBytes(Padded(scan))) + Marker(0xD9)
  }

  /** A marker segment: the marker, then a length field that counts itself and the rest of the segment. */
  ghost predicate LengthSegment(seg: seq<uint8>, code: uint8)
  {
    |seg| >= 4 && seg[..2] == Marker(code) && ReadWord(seg[2], seg[3]) == |seg| - 2
  }

  /** Every segment the encoder writes carries a length field that matches its size. */
  lemma SegmentLengths(width: int, height: int, qtLuma: seq<uint8>, qtChroma: seq<uint8>)
    requires |qtLuma| == 64 && |qtChroma| == 64
    ensures LengthSegment(App0Segment(), 0xE0)
    ensures LengthSegment(CommentSegment(), 0xFE)
    ensures LengthSegment(DqtSegment(qtLuma, 0), 0xDB) && LengthSegment(DqtSegment(qtChroma, 1), 0xDB)
    ensures LengthSegment(FrameHeader(width, height), 0xC0)
    ensures LengthSegment(ScanHeader(), 0xDA)
  {
  }

  lemma DhtLength(bits: seq<uint8>, vals: seq<uint8>, tableClass: nat, id: nat)
    requires |bits| == 16 && Total(bits, 16) <= |vals| && tableClass < 2 && id < 4
    ensures LengthSegment(DhtSegment(bits, vals, tableClass, id), 0xC4)
  {
  }

  lemma SpecDhtLength(bits: seq<seq<uint8>>, vals: seq<seq<uint8>>, i: nat)
    requires HuffSpecs(bits, vals) && i < 4
    ensures LengthSegment(SpecDht(bits, vals, i), 0xC4)
  {
    DhtLength(bits[i], vals[i], i % 2, i / 2);
  }

  /** What a decoder finds walking the file: markers, and the entropy-coded data after SOS. */
  datatype Part = Found(code: uint8) | EntropyCoded(data: seq<uint8>)

  /**
   * A decoder's walk over a file: SOI and EOI stand alone, every other
   * marker is followed by a length field and skipped over, and after SOS
   * the entropy-coded data runs to the next marker.
   */
  function Parse(bytes: seq<uint8>): seq<Part>
    decreases |bytes|
  {
    if |bytes| < 2 || bytes[0] != 0xFF then []
    else if bytes[1] == 0xD8 || bytes[1] == 0xD9 then [Found(bytes[1])] + Parse(bytes[2..])
    else if |bytes| < 4 then []
    else
      var len := ReadWord(bytes[2], bytes[3]);
      if len < 2 || |bytes| < 2 + len then []
      else if bytes[1] != 0xDA then [Found(bytes[1])] + Parse(bytes[2 + len..])
      else
        var rest := bytes[2 + len..];
        var n := EntropyLength(rest, 0);
        [Found(0xDA), EntropyCoded(rest[..n])] + Parse(rest[n..])
  }

  /** The end of entropy-coded data from index i: the first 0xFF not followed by a stuffed 0x00. */
  function EntropyLength(data: seq<uint8>, i: nat): (n: nat)
    requires i <= |data|
    ensures i <= n <= |data|
    decreases |data| - i
  {
    if i + 1 >= |data| then |data|
    else if data[i] == 0xFF && data[i + 1] != 0x00 then i
    else EntropyLength(data, i + 1)
  }

  /** Stuffed data followed by a marker ends exactly where the marker starts. */
  lemma {:induction false} StuffedDataEnds(x: seq<uint8>, tail: seq<uint8>, i: nat)
    requires |tail| >= 2 && tail[0] == 0xFF && tail[1] != 0x00 && i <= |Stuff(x)|
    ensures EntropyLength(Stuff(x) + tail, i) == |Stuff(x)|
    decreases |Stuff(x)| - i
  {
    var s := Stuff(x);
    var d := s + tail;
    if i < |s| {
      StuffedFFThenZero(x);
      assert d[i] == s[i];
      if s[i] == 0xFF {
        assert d[i + 1] == s[i + 1] == 0x00;
      }
      StuffedDataEnds(x, tail, i + 1);
    } else {
      assert d[i] == 0xFF && d[i + 1] != 0x00;
    }
  }

  /** A segment with a length field is skipped over as a whole. */
  lemma SkipSegment(seg: seq<uint8>, code: uint8, rest: seq<uint8>)
    requires LengthSegment(seg, code) && code != 0xD8 && code != 0xD9 && code != 0xDA
    ensures Parse(seg + rest) == [Found(code)] + Parse(rest)
  {
    var b := seg + rest;
    assert b[0] == seg[0] && b[1] == seg[1] && b[2] == seg[2] && b[3] == seg[3];
    assert seg[..2][0] == 0xFF && seg[..2][1] == code;
    assert b[|seg|..] == rest;
  }

  /**
   * The file the encoder produces walks as SOI, APP0, COM, DQT, DQT, SOF0,
   * DHT x 4, SOS, the stuffed scan bytes, EOI: the fixed segment order.
   */
  lemma FileLayout(width: int, height: int, qtLuma: seq<uint8>, qtChroma: seq<uint8>,
                    bits: seq<seq<uint8>>, vals: seq<seq<uint8>>, scan: seq<bool>)
    requires |qtLuma| == 64 && |qtChroma| == 64 && HuffSpecs(bits, vals)
    ensures Parse(JpegFile(width, height, qtLuma, qtChroma, bits, vals, scan)) ==
      [Found(0xD8), Found(0xE0), Found(0xFE), Found(0xDB), Found(0xDB), Found(0xC0),
       Found(0xC4), Found(0xC4), Found(0xC4), Found(0xC4), Found(0xDA),
       EntropyCoded(Stuff(PackBytes(Padded(scan)))), Found(0xD9)]
  {
    var data := Stuff(PackBytes(Padded(scan)));
    var tail := ScanHeader() + (data + Marker(0xD9));
    var front := Marker(0xD8) + App0Segment() + CommentSegment()
      + DqtSegment(qtLuma, 0) + DqtSegment(qtChroma, 1) + FrameHeader(width, height)
      + SpecDht(bits, vals, 0) + SpecDht(bits, vals, 1) + SpecDht(bits, vals, 2) + SpecDht(bits, vals, 3);
    assert JpegFile(width, height, qtLuma, qtChroma, bits, vals, scan) == front + tail by {
      AppendAssoc(front + ScanHeader(), data, Marker(0xD9));
      AppendAssoc(front, ScanHeader(), data + Marker(0xD9));
    }
    assert Parse(tail) == [Found(0xDA), EntropyCoded(data), Found(0xD9)] by {
      ScanWalk(PackBytes(Padded(scan)));
    }
    assert Parse(front + tail) == [Found(0xD8), Found(0xE0), Found(0xFE), Found(0xDB), Found(0xDB), Found(0xC0),
       Found(0xC4), Found(0xC4), Found(0xC4), Found(0xC4)] + Parse(tail) by {
      SegmentLengths(width, height, qtLuma, qtChroma);
      SpecDhtLength(bits, vals, 0);
      SpecDhtLength(bits, vals, 1);
      SpecDhtLength(bits, vals, 2);
      SpecDhtLength(bits, vals, 3);
      WalkSegments(App0Segment(), CommentSegment(), DqtSegment(qtLuma, 0), DqtSegment(qtChroma, 1),
        FrameHeader(width, height), SpecDht(bits, vals, 0), SpecDht(bits, vals, 1), SpecDht(bits, vals, 2), SpecDht(bits, vals, 3), tail);
    }
    WalkJoin(Parse(front + tail), Parse(tail), data);
  }

  /** The walk of the headers followed by the walk of the scan and EOI. */
  lemma WalkJoin(whole: seq<Part>, tail: seq<Part>, data: seq<uint8>)
    requires tail == [Found(0xDA), EntropyCoded(data), Found(0xD9)]
    requires whole == [Found(0xD8), Found(0xE0), Found(0xFE), Found(0xDB), Found(0xDB), Found(0xC0),
       Found(0xC4), Found(0xC4), Found(0xC4), Found(0xC4)] + tail
    ensures whole ==
      [Found(0xD8), Found(0xE0), Found(0xFE), Found(0xDB), Found(0xDB), Found(0xC0),
       Found(0xC4), Found(0xC4), Found(0xC4), Found(0xC4), Found(0xDA), EntropyCoded(data), Found(0xD9)]
  {
  }

  /** SOI followed by the nine length-prefixed segments in the encoder's order, whatever their contents. */
  lemma WalkSegments(app0: seq<uint8>, com: seq<uint8>, dqt0: seq<uint8>, dqt1: seq<uint8>, sof: seq<uint8>,
                     dht0: seq<uint8>, dht1: seq<uint8>, dht2: seq<uint8>, dht3: seq<uint8>, tail: seq<uint8>)
    requires LengthSegment(app0, 0xE0) && LengthSegment(com, 0xFE)
    requires LengthSegment(dqt0, 0xDB) && LengthSegment(dqt1, 0xDB) && LengthSegment(sof, 0xC0)
    requires LengthSegment(dht0, 0xC4) && LengthSegment(dht1, 0xC4)
    requires LengthSegment(dht2, 0xC4) && LengthSegment(dht3, 0xC4)
    ensures Parse(Marker(0xD8) + app0 + com + dqt0 + dqt1 + sof + dht0 + dht1 + dht2 + dht3 + tail) ==
      [Found(0xD8), Found(0xE0), Found(0xFE), Found(0xDB), Found(0xDB), Found(0xC0),
       Found(0xC4), Found(0xC4), Found(0xC4), Found(0xC4)] + Parse(tail)
  {
    var segs := [app0, com, dqt0, dqt1, sof, dht0, dht1, dht2, dht3];
    var codes: seq<uint8> := [0xE0, 0xFE, 0xDB, 0xDB, 0xC0, 0xC4, 0xC4, 0xC4, 0xC4];
    assert Parse(JoinOnto(segs, tail)) == Founds(codes) + Parse(tail) by {
      forall i | 0 <= i < |segs|
        ensures LengthSegment(segs[i], codes[i]) && codes[i] != 0xD8 && codes[i] != 0xD9 && codes[i] != 0xDA
      {
      }
      WalkAll(segs, codes, tail);
    }
    assert Marker(0xD8) + app0 + com + dqt0 + dqt1 + sof + dht0 + dht1 + dht2 + dht3 + tail
        == Marker(0xD8) + JoinOnto(segs, tail) by {
      JoinNine(app0, com, dqt0, dqt1, sof, dht0, dht1, dht2, dht3, tail);
      Regroup(app0, com, dqt0, dqt1, sof, dht0, dht1, dht2, dht3, tail);
    }
    StartBefore(JoinOnto(segs, tail), Founds(codes), Parse(tail));
    FoundsNine();
  }

  /** A list of byte strings concatenated in front of `tail`. */
  function JoinOnto(segs: seq<seq<uint8>>, tail: seq<uint8>): seq<uint8>
  {
    if |segs| == 0 then tail else segs[0] + JoinOnto(segs[1..], tail)
  }

  /** The walk of a run of length-prefixed segments: one marker per segment. */
  function Founds(codes: seq<uint8>): (r: seq<Part>)
    ensures |r| == |codes| && forall i :: 0 <= i < |codes| ==> r[i] == Found(codes[i])
  {
    seq(|codes|, i requires 0 <= i < |codes| => Found(codes[i]))
  }

  /** Length-prefixed segments are skipped one after the other, whatever follows them. */
  lemma {:induction false} WalkAll(segs: seq<seq<uint8>>, codes: seq<uint8>, tail: seq<uint8>)
    requires |segs| == |codes|
    requires forall i :: 0 <= i < |segs| ==> LengthSegment(segs[i], codes[i])
    requires forall i :: 0 <= i < |codes| ==> codes[i] != 0xD8 && codes[i] != 0xD9 && codes[i] != 0xDA
    ensures Parse(JoinOnto(segs, tail)) == Founds(codes) + Parse(tail)
  {
    if |segs| > 0 {
      var rest := JoinOnto(segs[1..], tail);
      var found := Founds(codes[1..]);
      assert Parse(rest) == found + Parse(tail) by {
        WalkAll(segs[1..], codes[1..], tail);
      }
      assert Founds(codes) == [Found(codes[0])] + found;
      SkipBefore(segs[0], codes[0], rest, found, Parse(tail));
    }
  }

  lemma JoinNine(a: seq<uint8>, b: seq<uint8>, c: seq<uint8>, d: seq<uint8>, e: seq<uint8>,
                 f: seq<uint8>, g: seq<uint8>, h: seq<uint8>, i: seq<uint8>, t: seq<uint8>)
    ensures JoinOnto([a, b, c, d, e, f, g, h, i], t) == a + (b + (c + (d + (e + (f + (g + (h + (i + t))))))))
  {
    var s := [a, b, c, d, e, f, g, h, i];
    assert JoinOnto(s[9..], t) == t;
    assert JoinOnto(s[8..], t) == i + t;
    assert JoinOnto(s[7..], t) == h + (i + t);
    assert JoinOnto(s[6..], t) == g + (h + (i + t));
    assert JoinOnto(s[5..], t) == f + (g + (h + (i + t)));
    assert JoinOnto(s[4..], t) == e + (f + (g + (h + (i + t))));
    assert JoinOnto(s[3..], t) == d + (e + (f + (g + (h + (i + t)))));
    assert JoinOnto(s[2..], t) == c + (d + (e + (f + (g + (h + (i + t))))));
    assert JoinOnto(s[1..], t) == b + (c + (d + (e + (f + (g + (h + (i + t)))))));
  }

  lemma FoundsNine()
    ensures [Found(0xD8)] + Founds([0xE0, 0xFE, 0xDB, 0xDB, 0xC0, 0xC4, 0xC4, 0xC4, 0xC4]) ==
      [Found(0xD8), Found(0xE0), Found(0xFE), Found(0xDB), Found(0xDB), Found(0xC0),
       Found(0xC4), Found(0xC4), Found(0xC4), Found(0xC4)]
  {
  }

  /** A segment in front of bytes that walk as `found + parts`. */
  lemma SkipBefore(seg: seq<uint8>, code: uint8, rest: seq<uint8>, found: seq<Part>, parts: seq<Part>)
    requires LengthSegment(seg, code) && code != 0xD8 && code != 0xD9 && code != 0xDA
    requires Parse(rest) == found + parts
    ensures Parse(seg + rest) == [Found(code)] + found + parts
  {
    SkipSegment(seg, code, rest);
  }

  /** SOI in front of bytes that walk as `found + parts`. */
  lemma StartBefore(rest: seq<uint8>, found: seq<Part>, parts: seq<Part>)
    requires Parse(rest) == found + parts
    ensures Parse(Marker(0xD8) + rest) == [Found(0xD8)] + found + parts
  {
    assert (Marker(0xD8) + rest)[2..] == rest;
  }

  /** The left-nested concatenation of the header pieces is SOI followed by the right-nested one. */
  lemma Regroup(app0: seq<uint8>, com: seq<uint8>, dqt0: seq<uint8>, dqt1: seq<uint8>, sof: seq<uint8>,
                dht0: seq<uint8>, dht1: seq<uint8>, dht2: seq<uint8>, dht3: seq<uint8>, tail: seq<uint8>)
    ensures Marker(0xD8) + app0 + com + dqt0 + dqt1 + sof + dht0 + dht1 + dht2 + dht3 + tail ==
      Marker(0xD8) + (app0 + (com + (dqt0 + (dqt1 + (sof + (dht0 + (dht1 + (dht2 + (dht3 + tail)))))))))
  {
    var r1 := dht3 + tail;
    var r2 := dht2 + r1;
    var r3 := dht1 + r2;
    var r4 := dht0 + r3;
    var r5 := sof + r4;
    var r6 := dqt1 + r5;
    var r7 := dqt0 + r6;
    var r8 := com + r7;
    var h1 := Marker(0xD8) + app0;
    var h2 := h1 + com;
    var h3 := h2 + dqt0;
    var h4 := h3 + dqt1;
    var h5 := h4 + sof;
    var h6 := h5 + dht0;
    var h7 := h6 + dht1;
    var h8 := h7 + dht2;
    AppendAssoc(h8, dht3, tail);
    AppendAssoc(h7, dht2, r1);
    AppendAssoc(h6, dht1, r2);
    AppendAssoc(h5, dht0, r3);
    AppendAssoc(h4, sof, r4);
    AppendAssoc(h3, dqt1, r5);
    AppendAssoc(h2, dqt0, r6);
    AppendAssoc(h1, com, r7);
    AppendAssoc(Marker(0xD8), app0, r8);
  }

  lemma AppendAssoc(a: seq<uint8>, b: seq<uint8>, c: seq<uint8>)
    ensures a + b + c == a + (b + c)
  {
  }

  lemma AppendFour(w: seq<uint8>, a: seq<uint8>, b: seq<uint8>, c: seq<uint8>, d: seq<uint8>)
    ensures w + a + b + c + d == w + (a + b + c + d)
  {
  }

  lemma AppendFive(w: seq<uint8>, a: seq<uint8>, b: seq<uint8>, c: seq<uint8>, d: seq<uint8>, e: seq<uint8>)
    ensures w + a + b + c + d + e == w + (a + b + c + d + e)
  {
  }

  /** A marker written as a 16-bit word is the marker's two bytes. */
  lemma MarkerWord(code: uint8)
    ensures BeWord(0xFF00 + code as nat) == Marker(code)
  {
    DivModUnique(0xFF00 + code as nat, 0x100, 0xFF, code as nat);
  }

  /** The scan header, the stuffed data and EOI walk as SOS, the data, EOI. */
  lemma ScanWalk(x: seq<uint8>)
    ensures Parse(ScanHeader() + (Stuff(x) + Marker(0xD9))) == [Found(0xDA), EntropyCoded(Stuff(x)), Found(0xD9)]
  {
    var sos, data, eoi := ScanHeader(), Stuff(x), Marker(0xD9);
    assert |sos| == 14 && sos[0] == 0xFF && sos[1] == 0xDA && ReadWord(sos[2], sos[3]) == 12;
    assert Parse(eoi) == [Found(0xD9)];
    StuffedDataEnds(x, eoi, 0);
    hide ScanHeader, Stuff, Marker, EntropyLength;
    var r0 := data + eoi;
    var r1 := sos + r0;
    assert r1[2 + 12..] == r0 && r0[..|data|] == data && r0[|data|..] == eoi;
    assert r1[0] == 0xFF && r1[1] == 0xDA && r1[2] == sos[2] && r1[3] == sos[3];
  }
}

/**
 * grb565_mirror and SWAP_Y of rgb565_mirror.c. A buffer of rows of
 * `width` 2-byte pixels is read, row by row, as 4-byte little-endian words
 * (width / 2 of them per row); each row's words are reversed in place by
 * two indices walking towards each other, and every word that moves goes
 * through SWAP_Y, which exchanges its bytes 1 and 3. The word in the
 * middle of an odd number of words, and the last two bytes of a row of
 * odd width, are not touched.
 */
module Mirror {
  import opened Arith
  import opened Permutation

  /** SWAP_Y: the bytes under 0xFF00FF stay, byte 3 moves down to byte 1 and byte 1 up to byte 3. */
  function SwapY(w: bv32): bv32
  {
    (w & 0xFF00FF) + ((w >> 16) & 0xFF00) + ((w << 16) & 0xFF000000)
  }

  /** The word whose little-endian bytes are b0, b1, b2, b3, as the cast to unsigned int reads them. */
  function Word(b0: bv8, b1: bv8, b2: bv8, b3: bv8): bv32
  {
    (b0 as bv32) | ((b1 as bv32) << 8) | ((b2 as bv32) << 16) | ((b3 as bv32) << 24)
  }

  /** Byte i of a word, 0 being the least significant, as a store through the cast writes it. */
  function ByteOf(w: bv32, i: int): bv8
    requires 0 <= i < 4
  {
    if i == 0 then (w & 0xFF) as bv8
    else if i == 1 then ((w >> 8) & 0xFF) as bv8
    else if i == 2 then ((w >> 16) & 0xFF) as bv8
    else (w >> 24) as bv8
  }

  /** Storing a word writes back the four bytes it was read from. */
  lemma WordBytes(b0: bv8, b1: bv8, b2: bv8, b3: bv8)
    ensures ByteOf(Word(b0, b1, b2, b3), 0) == b0 && ByteOf(Word(b0, b1, b2, b3), 1) == b1
    ensures ByteOf(Word(b0, b1, b2, b3), 2) == b2 && ByteOf(Word(b0, b1, b2, b3), 3) == b3
  {
  }

  /** A word is determined by its four bytes. */
  lemma ByteEquality(v: bv32, w: bv32)
    requires forall i :: 0 <= i < 4 ==> ByteOf(v, i) == ByteOf(w, i)
    ensures v == w
  {
    assert ByteOf(v, 0) == ByteOf(w, 0) && ByteOf(v, 1) == ByteOf(w, 1);
    assert ByteOf(v, 2) == ByteOf(w, 2) && ByteOf(v, 3) == ByteOf(w, 3);
  }

  /** The slot a byte of a word lands in under SWAP_Y: 1 and 3 trade places, 0 and 2 stay. */
  function SwapSlot(b: int): (c: int)
    requires 0 <= b < 4
    ensures 0 <= c < 4 && (c == b <==> b % 2 == 0)
  {
    if b == 1 then 3 else if b == 3 then 1 else b
  }

  /** On a little-endian word SWAP_Y exchanges bytes 1 and 3 and keeps bytes 0 and 2. */
  lemma SwapYBytes(w: bv32)
    ensures ByteOf(SwapY(w), 0) == ByteOf(w, 0) && ByteOf(SwapY(w), 1) == ByteOf(w, 3)
    ensures ByteOf(SwapY(w), 2) == ByteOf(w, 2) && ByteOf(SwapY(w), 3) == ByteOf(w, 1)
  {
  }

  /** The same, slot by slot. */
  lemma SwapYSlots(w: bv32)
    ensures forall i :: 0 <= i < 4 ==> ByteOf(SwapY(w), i) == ByteOf(w, SwapSlot(i))
  {
    SwapYBytes(w);
  }

  /** SWAP_Y on the word of four bytes is the word of the same bytes with the second and the fourth exchanged. */
  lemma SwapYWord(b0: bv8, b1: bv8, b2: bv8, b3: bv8)
    ensures SwapY(Word(b0, b1, b2, b3)) == Word(b0, b3, b2, b1)
  {
  }

  /** SWAP_Y undoes itself. */
  lemma SwapYInvolution(w: bv32)
    ensures SwapY(SwapY(w)) == w
  {
    SwapYSlots(w);
    SwapYSlots(SwapY(w));
    ByteEquality(SwapY(SwapY(w)), w);
  }

  /** The bytes of every row whose words move lie in the buffer. */
  predicate InBuffer(length: int, width: int, height: int)
  {
    width < 4 || height <= 0 || height * width * 2 <= length
  }

  /**
   * Whether word k of a row holding n words has moved once the first
   * `rows` rows are mirrored and, in the row after them, the first `pairs`
   * word pairs from both ends have been exchanged. The middle word of an
   * odd n never moves.
   */
  predicate Moved(n: int, k: int, row: int, rows: int, pairs: int)
  {
    0 <= k < n && k != n - 1 - k && (row < rows || (row == rows && (k < pairs || n - 1 - k < pairs)))
  }

  /** The offset of byte b of word k of a row, rows being 2 * width bytes apart. */
  function At(width: int, row: int, k: int, b: int): int
  {
    row * (2 * width) + 4 * k + b
  }

  /** Byte b of a word lies b bytes past its first. */
  lemma AtShift(width: int, row: int, k: int, b: int)
    ensures At(width, row, k, b) == At(width, row, k, 0) + b
  {
  }

  /** Every byte of a word of a row below `height` lies in the buffer, once a row holds two words. */
  lemma InRow(width: int, height: int, row: int, k: int, b: int, length: int)
    requires InBuffer(length, width, height) && width >= 4
    requires 0 <= row < height && 0 <= k < width / 2 && 0 <= b < 4
    ensures 0 <= At(width, row, k, b) < length
  {
    MulMonotone(2 * width, row + 1, height);
    MulMonotone(2 * width, 0, row);
  }

  /** p splits into a row, a word of that row and a byte of that word. */
  lemma Split(p: nat, width: int)
    requires width >= 2
    ensures var stride := 2 * width; var col := p % stride;
      0 <= p / stride && 0 <= col / 4 <= width / 2 && 0 <= col % 4 < 4
      && col / 4 == p % (2 * width) / 4 && p == At(width, p / stride, col / 4, col % 4)
  {
    var stride := 2 * width;
    DivMod(p, stride);
    MulMonotone(stride, 0, p / stride);
  }

  /**
   * Where byte p comes from in that state: a byte of a moved word k comes
   * from word n - 1 - k of its row, through SWAP_Y; every other byte stays.
   */
  function MirrorSource(p: nat, width: int, rows: int, pairs: int): nat
  {
    if width < 2 then p
    else
      var stride := 2 * width;
      Split(p, width);
      var row, col := p / stride, p % stride;
      var k, b := col / 4, col % 4;
      if Moved(width / 2, k, row, rows, pairs) then p + 4 * (width / 2 - 1 - 2 * k) + SwapSlot(b) - b
      else p
  }

  /** Byte b of word k of a row: its source in that state. */
  lemma SourceAt(width: int, row: nat, k: nat, b: nat, rows: int, pairs: int)
    requires width >= 2 && k < width / 2 && b < 4
    ensures At(width, row, k, b) >= 0
    ensures MirrorSource(At(width, row, k, b), width, rows, pairs)
      == if Moved(width / 2, k, row, rows, pairs) then At(width, row, width / 2 - 1 - k, SwapSlot(b)) else At(width, row, k, b)
  {
    var stride := 2 * width;
    MulMonotone(stride, 0, row);
    DivModUnique(row * stride + 4 * k + b, stride, row, 4 * k + b);
    DivModUnique(4 * k + b, 4, k, b);
  }

  /** A byte past the last whole word of its row never moves. */
  lemma PastLastWord(p: nat, width: int, rows: int, pairs: int)
    requires width >= 2 && p % (2 * width) / 4 >= width / 2
    ensures MirrorSource(p, width, rows, pairs) == p
  {
  }

  /** Taking the source of a source gives back the position: each moved byte trades places with its partner. */
  lemma MirrorSourceInvolution(p: nat, width: int, rows: int, pairs: int)
    ensures MirrorSource(MirrorSource(p, width, rows, pairs), width, rows, pairs) == p
  {
    if width >= 2 {
      var stride, n := 2 * width, width / 2;
      Split(p, width);
      var row, col := p / stride, p % stride;
      var k, b := col / 4, col % 4;
      hide At, MirrorSource;
      if k < n {
        SourceAt(width, row, k, b, rows, pairs);
        if Moved(n, k, row, rows, pairs) {
          SourceAt(width, row, n - 1 - k, SwapSlot(b), rows, pairs);
        }
      } else {
        PastLastWord(p, width, rows, pairs);
      }
    }
  }

  /** Every source position of a byte in the buffer lies in the buffer. */
  lemma MirrorSourceBound(p: nat, width: int, height: int, rows: int, pairs: int, length: nat)
    requires InBuffer(length, width, height) && p < length
    requires rows <= height && (pairs > 0 ==> rows < height)
    ensures MirrorSource(p, width, rows, pairs) < length
  {
    if width >= 2 {
      var stride, n := 2 * width, width / 2;
      Split(p, width);
      var row, col := p / stride, p % stride;
      var k, b := col / 4, col % 4;
      hide At, MirrorSource;
      if k < n {
        SourceAt(width, row, k, b, rows, pairs);
        if Moved(n, k, row, rows, pairs) {
          InRow(width, height, row, n - 1 - k, SwapSlot(b), length);
        }
      } else {
        PastLastWord(p, width, rows, pairs);
      }
    }
  }

  /** The buffer grb565_mirror leaves behind from s. */
  function Mirrored(s: seq<bv8>, width: int, height: int): (r: seq<bv8>)
    requires InBuffer(|s|, width, height)
    ensures |r| == |s|
  {
    seq(|s|, p requires 0 <= p < |s| =>
      MirrorSourceBound(p, width, height, height, 0, |s|);
      s[MirrorSource(p, width, height, 0)])
  }

  /** The word at byte offset p, read through the cast to unsigned int. */
  function LoadWord(a: array<bv8>, p: int): bv32
    reads a
    requires 0 <= p && p + 3 < a.Length
  {
    Word(a[p], a[p + 1], a[p + 2], a[p + 3])
  }

  /** A store through the cast to unsigned int: the four bytes at p become w's, nothing else changes. */
  method StoreWord(a: array<bv8>, p: int, w: bv32)
    requires 0 <= p && p + 3 < a.Length
    modifies a
    ensures forall i :: 0 <= i < a.Length ==> a[i] == if p <= i < p + 4 then ByteOf(w, i - p) else old(a[i])
  {
    a[p], a[p + 1], a[p + 2], a[p + 3] := ByteOf(w, 0), ByteOf(w, 1), ByteOf(w, 2), ByteOf(w, 3);
  }

  /** The body of the loop over a row: tmp = SWAP_Y(*x); *x = SWAP_Y(*y); *y = tmp. */
  method ExchangeWords(src: array<bv8>, x: int, y: int)
    requires 0 <= x && x + 4 <= y && y + 3 < src.Length
    modifies src
    ensures forall i :: 0 <= i < src.Length ==> src[i] == Exchanged(old(src[..]), x, y, i)
  {
    var tmp := SwapY(LoadWord(src, x));
    StoreWord(src, x, SwapY(LoadWord(src, y)));
    StoreWord(src, y, tmp);
  }

  /** grb565_mirror: each of the first `height` rows reversed word by word, every moved word through SWAP_Y. */
  method MirrorRows(src: array<bv8>, width: int, height: int)
    requires InBuffer(src.Length, width, height)
    modifies src
    ensures src[..] == Mirrored(old(src[..]), width, height)
  {
    hide MirrorSource, ByteOf, SwapY, Word, At, Exchanged, InBuffer, Mirrored, MirrorState;
    ghost var s := src[..];
    NothingMoved(s, width);
    var h := 0;
    while h < height
      invariant 0 <= h && (h <= height || h == 0)
      invariant MirrorState(s, src[..], width, h, 0)
    {
      var x := h * width * 2;
      var y := x + 4 * (width / 2 - 1);
      ghost var k := 0;
      AtSteps(width, h, k);
      while x < y
        invariant 0 <= k && x == At(width, h, k, 0) && y == At(width, h, width / 2 - 1 - k, 0)
        invariant MirrorState(s, src[..], width, h, k)
      {
        AtCompare(width, h, k, width / 2 - 1 - k);
        InRow(width, height, h, width / 2 - 1 - k, 3, src.Length);
        AtWord(width, h, k);
        AtWord(width, h, width / 2 - 1 - k);
        AtOrder(width, h, k, width / 2 - 1 - k);
        ghost var before := src[..];
        ExchangeWords(src, x, y);
        PairStep(s, before, src[..], width, h, k, k + 1);
        AtSteps(width, h, k);
        x, y, k := x + 4, y - 4, k + 1;
      }
      AtCompare(width, h, k, width / 2 - 1 - k);
      RowDone(s, src[..], width, h, k, h + 1);
      h := h + 1;
    }
    AllRowsDone(s, src[..], width, height, h);
  }

  /** The bytes of word k of a row follow its first, which is not negative. */
  lemma AtWord(width: int, row: int, k: int)
    requires width >= 2 && row >= 0 && k >= 0
    ensures At(width, row, k, 0) >= 0
    ensures forall b :: At(width, row, k, b) == At(width, row, k, 0) + b
  {
    MulMonotone(2 * width, 0, row);
  }

  /** The two indices of a row, at the start and after each step. */
  lemma AtSteps(width: int, row: int, k: int)
    ensures At(width, row, 0, 0) == row * width * 2 && At(width, row, width / 2 - 1, 0) == row * width * 2 + 4 * (width / 2 - 1)
    ensures At(width, row, k + 1, 0) == At(width, row, k, 0) + 4
    ensures At(width, row, width / 2 - 1 - (k + 1), 0) == At(width, row, width / 2 - 1 - k, 0) - 4
  {
  }

  /** Within a row, words start in the order of their indices. */
  lemma AtCompare(width: int, row: int, k: int, k': int)
    ensures At(width, row, k, 0) < At(width, row, k', 0) <==> k < k'
  {
  }

  /** Within a row, a word ends before any later word starts. */
  lemma AtOrder(width: int, row: int, k: int, k': int)
    requires k < k'
    ensures At(width, row, k, 3) < At(width, row, k', 0)
  {
  }

  /**
   * Exchanging words k and n - 1 - k of row h, each through SWAP_Y, takes
   * the buffer from the state with k pairs of that row exchanged to the
   * state with k + 1.
   */
  lemma PairStep(s: seq<bv8>, a: seq<bv8>, a': seq<bv8>, width: int, h: nat, k: nat, next: int)
    requires width >= 2 && k < width / 2 - 1 - k && next == k + 1
    requires At(width, h, width / 2 - 1 - k, 3) < |a| == |a'|
    requires MirrorState(s, a, width, h, k)
    requires var x, y := At(width, h, k, 0), At(width, h, width / 2 - 1 - k, 0);
      0 <= x && x + 4 <= y && forall i :: 0 <= i < |a'| ==> a'[i] == Exchanged(a, x, y, i)
    ensures MirrorState(s, a', width, h, next)
  {
    hide At, MirrorSource, Exchanged;
    forall p: nat | p < |a'| {
      PairStepAt(s, a, a', width, h, k, next, p);
    }
  }

  /**
   * Byte i once the words at byte offsets x and y < |a| - 3 are exchanged
   * through SWAP_Y.
   */
  function Exchanged(a: seq<bv8>, x: int, y: int, i: int): bv8
    requires 0 <= x && x + 4 <= y && y + 3 < |a| && 0 <= i < |a|
  {
    if x <= i < x + 4 then ByteOf(SwapY(Word(a[y], a[y + 1], a[y + 2], a[y + 3])), i - x)
    else if y <= i < y + 4 then ByteOf(SwapY(Word(a[x], a[x + 1], a[x + 2], a[x + 3])), i - y)
    else a[i]
  }

  /** The same, byte by byte. */
  lemma PairStepAt(s: seq<bv8>, a: seq<bv8>, a': seq<bv8>, width: int, h: nat, k: nat, next: int, p: nat)
    requires width >= 2 && k < width / 2 - 1 - k && next == k + 1
    requires At(width, h, width / 2 - 1 - k, 3) < |a| == |a'|
    requires MirrorState(s, a, width, h, k)
    requires var x, y := At(width, h, k, 0), At(width, h, width / 2 - 1 - k, 0);
      0 <= x && x + 4 <= y && forall i :: 0 <= i < |a'| ==> a'[i] == Exchanged(a, x, y, i)
    requires p < |a'|
    ensures MirrorSource(p, width, h, next) < |s| && a'[p] == s[MirrorSource(p, width, h, next)]
  {
    hide At, MirrorSource, ByteOf, SwapY, Word;
    var n := width / 2;
    var x, y := At(width, h, k, 0), At(width, h, n - 1 - k, 0);
    AtWord(width, h, k);
    AtWord(width, h, n - 1 - k);
    AtOrder(width, h, k, n - 1 - k);
    if x <= p < x + 4 {
      ExchangedByte(s, a, width, h, k, k, n - 1 - k, p - x);
    } else if y <= p < y + 4 {
      ExchangedByte(s, a, width, h, k, n - 1 - k, k, p - y);
    } else {
      OutsidePair(p, width, h, k);
    }
  }

  /**
   * Byte b of word `to` of row h, once words `to` and `from` (the pair
   * k, n - 1 - k in either order) are exchanged, is byte SwapSlot(b) of
   * word `from` before the exchange.
   */
  lemma ExchangedByte(s: seq<bv8>, a: seq<bv8>, width: int, h: nat, k: nat, to: nat, from: nat, b: nat)
    requires width >= 2 && k < width / 2 - 1 - k && b < 4
    requires (to == k && from == width / 2 - 1 - k) || (to == width / 2 - 1 - k && from == k)
    requires At(width, h, from, 3) < |a|
    requires MirrorState(s, a, width, h, k)
    ensures var f := At(width, h, from, 0);
      0 <= f && MirrorSource(At(width, h, to, b), width, h, k + 1) == At(width, h, from, SwapSlot(b)) < |s|
      && ByteOf(SwapY(Word(a[f], a[f + 1], a[f + 2], a[f + 3])), b) == s[At(width, h, from, SwapSlot(b))]
  {
    hide At, ByteOf, SwapY, Word, MirrorSource;
    AtWord(width, h, from);
    var f := At(width, h, from, 0);
    SourceAt(width, h, to, b, h, k + 1);
    SourceAt(width, h, from, SwapSlot(b), h, k);
    SwappedByte(a[f], a[f + 1], a[f + 2], a[f + 3], b);
    assert [a[f], a[f + 1], a[f + 2], a[f + 3]][SwapSlot(b)] == a[f + SwapSlot(b)];
  }

  /** Byte i of a word read from four bytes and passed through SWAP_Y is the byte in slot SwapSlot(i). */
  lemma SwappedByte(b0: bv8, b1: bv8, b2: bv8, b3: bv8, i: int)
    requires 0 <= i < 4
    ensures ByteOf(SwapY(Word(b0, b1, b2, b3)), i) == [b0, b1, b2, b3][SwapSlot(i)]
  {
    WordBytes(b0, b1, b2, b3);
    SwapYSlots(Word(b0, b1, b2, b3));
  }

  /** Bytes outside words k and n - 1 - k of row h keep their source when that pair is exchanged. */
  lemma OutsidePair(p: nat, width: int, h: nat, k: nat)
    requires width >= 2 && k < width / 2 - 1 - k
    requires !(At(width, h, k, 0) <= p < At(width, h, k, 0) + 4)
    requires !(At(width, h, width / 2 - 1 - k, 0) <= p < At(width, h, width / 2 - 1 - k, 0) + 4)
    ensures MirrorSource(p, width, h, k + 1) == MirrorSource(p, width, h, k)
  {
    var stride, n := 2 * width, width / 2;
    Split(p, width);
    var row, col := p / stride, p % stride;
    var kk, b := col / 4, col % 4;
    if kk < n {
      SourceAt(width, row, kk, b, h, k + 1);
      SourceAt(width, row, kk, b, h, k);
      if row == h {
        assert kk != k && kk != n - 1 - k;
      }
    } else {
      PastLastWord(p, width, h, k + 1);
      PastLastWord(p, width, h, k);
    }
  }

  /** Every byte of a holds the byte of s its source names: the buffer is in that state. */
  ghost predicate MirrorState(s: seq<bv8>, a: seq<bv8>, width: int, rows: int, pairs: int)
  {
    forall p :: 0 <= p < |a| ==> MirrorSource(p, width, rows, pairs) < |s| && a[p] == s[MirrorSource(p, width, rows, pairs)]
  }

  /** Before the first row, every byte is its own source. */
  lemma NothingMoved(s: seq<bv8>, width: int)
    ensures MirrorState(s, s, width, 0, 0)
  {
    forall p: nat | p < |s|
      ensures MirrorSource(p, width, 0, 0) == p
    {
      if width >= 2 {
        Split(p, width);
      }
    }
  }

  /** Once the two indices meet, row h is mirrored: the state is that of h + 1 rows. */
  lemma RowDone(s: seq<bv8>, a: seq<bv8>, width: int, h: nat, k: nat, next: int)
    requires width / 2 - 1 - k <= k && next == h + 1
    requires MirrorState(s, a, width, h, k)
    ensures MirrorState(s, a, width, next, 0)
  {
    forall p: nat | p < |a|
      ensures MirrorSource(p, width, next, 0) == MirrorSource(p, width, h, k)
    {
    }
  }

  /** When the rows run out, the buffer is the mirrored one. */
  lemma AllRowsDone(s: seq<bv8>, a: seq<bv8>, width: int, height: int, h: nat)
    requires InBuffer(|s|, width, height) && |a| == |s|
    requires h >= height && (h <= height || h == 0)
    requires MirrorState(s, a, width, h, 0)
    ensures a == Mirrored(s, width, height)
  {
    forall p: nat | p < |a|
      ensures a[p] == Mirrored(s, width, height)[p]
    {
      if width >= 2 && h != height {
        Split(p, width);
      }
    }
  }
  /** Mirroring twice restores the buffer. */
  lemma MirrorInvolution(s: seq<bv8>, width: int, height: int)
    requires InBuffer(|s|, width, height)
    ensures Mirrored(Mirrored(s, width, height), width, height) == s
  {
    var m := Mirrored(s, width, height);
    forall p | 0 <= p < |s|
      ensures Mirrored(m, width, height)[p] == s[p]
    {
      MirrorSourceBound(p, width, height, height, 0, |s|);
      MirrorSourceInvolution(p, width, height, 0);
    }
  }

  /** Byte p of the mirrored buffer is the byte its source names. */
  lemma MirroredAt(s: seq<bv8>, width: int, height: int, p: int)
    requires InBuffer(|s|, width, height) && 0 <= p < |s|
    ensures MirrorSource(p, width, height, 0) < |s| && Mirrored(s, width, height)[p] == s[MirrorSource(p, width, height, 0)]
  {
    MirrorSourceBound(p, width, height, height, 0, |s|);
  }

  /** Mirroring only rearranges the bytes. */
  lemma MirrorPermutes(s: seq<bv8>, width: int, height: int)
    requires InBuffer(|s|, width, height)
    ensures multiset(Mirrored(s, width, height)) == multiset(s)
  {
    hide MirrorSource, Mirrored, InBuffer;
    var from := seq(|s|, p requires 0 <= p < |s| => MirrorSource(p, width, height, 0));
    forall p | 0 <= p < |s|
      ensures from[p] < |s| && Mirrored(s, width, height)[p] == s[from[p]]
    {
      MirroredAt(s, width, height, p);
    }
    forall p, q | 0 <= p < q < |s|
      ensures from[p] != from[q]
    {
      MirrorSourceInvolution(p, width, height, 0);
      MirrorSourceInvolution(q, width, height, 0);
    }
    PermutedMultiset(s, Mirrored(s, width, height), from);
  }

  /**
   * Word by word: in a row below `height`, word k of the result is word
   * n - 1 - k of the input through SWAP_Y, for every k but the middle one.
   */
  lemma MirroredWords(s: seq<bv8>, width: int, height: int, row: int, k: int)
    requires InBuffer(|s|, width, height) && 0 <= row < height
    requires 0 <= k < width / 2 && k != width / 2 - 1 - k
    ensures var r, at, from := Mirrored(s, width, height), At(width, row, k, 0), At(width, row, width / 2 - 1 - k, 0);
      0 <= at && at + 3 < |s| && 0 <= from && from + 3 < |s|
      && Word(r[at], r[at + 1], r[at + 2], r[at + 3]) == SwapY(Word(s[from], s[from + 1], s[from + 2], s[from + 3]))
  {
    hide MirrorSource, Mirrored, At, ByteOf, SwapY, Word, InBuffer;
    var n := width / 2;
    var r, at, from := Mirrored(s, width, height), At(width, row, k, 0), At(width, row, n - 1 - k, 0);
    assert width >= 4;
    InRow(width, height, row, k, 3, |s|);
    InRow(width, height, row, n - 1 - k, 3, |s|);
    AtWord(width, row, k);
    AtWord(width, row, n - 1 - k);
    forall b | 0 <= b < 4
      ensures r[at + b] == s[from + SwapSlot(b)]
    {
      SourceAt(width, row, k, b, height, 0);
      MirroredAt(s, width, height, at + b);
    }
    SwappedWord(r, at, s, from);
  }

  /** Four bytes that are the bytes of another word with slots 1 and 3 exchanged make that word through SWAP_Y. */
  lemma SwappedWord(r: seq<bv8>, at: int, s: seq<bv8>, from: int)
    requires 0 <= at && at + 3 < |r| && 0 <= from && from + 3 < |s|
    requires forall b :: 0 <= b < 4 ==> r[at + b] == s[from + SwapSlot(b)]
    ensures Word(r[at], r[at + 1], r[at + 2], r[at + 3]) == SwapY(Word(s[from], s[from + 1], s[from + 2], s[from + 3]))
  {
    assert r[at] == s[from] && r[at + 1] == s[from + 3] by {
      assert r[at + 0] == s[from + SwapSlot(0)] && r[at + 1] == s[from + SwapSlot(1)];
    }
    assert r[at + 2] == s[from + 2] && r[at + 3] == s[from + 1] by {
      assert r[at + 2] == s[from + SwapSlot(2)] && r[at + 3] == s[from + SwapSlot(3)];
    }
    SwapYWord(s[from], s[from + 1], s[from + 2], s[from + 3]);
  }

  /**
   * What stays: rows from `height` on, the bytes past the last whole word
   * of a row (the last two of a row of odd width), and the middle word of
   * an odd number of words, which is not even passed through SWAP_Y.
   */
  lemma MirrorKeeps(s: seq<bv8>, width: int, height: int, p: int)
    requires InBuffer(|s|, width, height) && width >= 2 && 0 <= p < |s|
    requires p / (2 * width) >= height || p % (2 * width) >= 4 * (width / 2)
      || (width / 2 % 2 == 1 && p % (2 * width) / 4 == width / 2 / 2)
    ensures Mirrored(s, width, height)[p] == s[p]
  {
    Split(p, width);
  }

  /** With fewer than two pixels a row holds no whole word, and nothing changes. */
  lemma MirrorNarrow(s: seq<bv8>, width: int, height: int)
    requires width < 2
    ensures Mirrored(s, width, height) == s
  {
  }
}

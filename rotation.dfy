/**
 * yuv422_uyvy_rotate_clockwise_90 of yuv422_rotation.c. The input is
 * `height` rows of `width` UYVY pixels (2 bytes each, 4 bytes per pair of
 * pixels: U, Y0, V, Y1). The output is `width` rows of `height` pixels.
 * For each column group c (input bytes 4c .. 4c + 3 of every row) the
 * function fills output rows 2c and 2c + 1: it walks the input rows
 * bottom-up, copying the group of row h - 1 - j whole into output row
 * 2c + (j & 1), and after each odd j exchanges byte 3 of the even copy with
 * byte 1 of the odd copy, so that each output row gets its own luma bytes.
 *
 * Output byte b of pair m of output row 2c + row sits at OutAt(height, c,
 * row, m, b); input byte b of group c of input row r sits at InAt(width,
 * r, c, b).
 */
module Rotation {
  import opened Arith
  import opened Permutation

  /** The dimensions the rotation handles: both even (and not negative). */
  predicate EvenSize(width: int, height: int)
  {
    0 <= width && 0 <= height && width % 2 == 0 && height % 2 == 0
  }

  /** Byte b of group c of input row r. */
  function InAt(width: int, r: int, c: int, b: int): int
  {
    r * (2 * width) + 4 * c + b
  }

  /** Byte b of pair m of output row 2c + row (an output row holds 2 * height bytes). */
  function OutAt(height: int, c: int, row: int, m: int, b: int): int
  {
    c * (4 * height) + (if row == 0 then 0 else 2 * height) + 4 * m + b
  }

  /** The output positions of a rotation of even dimensions. */
  predicate OutSlot(width: int, height: int, c: int, row: int, m: int, b: int)
  {
    0 <= c < width / 2 && 0 <= row < 2 && 0 <= m < height / 2 && 0 <= b < 4
  }

  /**
   * The input byte that output byte (c, row, m, b) receives. Pair m of
   * output rows 2c and 2c + 1 comes from input rows e = h - 1 - 2m (the
   * even copy) and o = h - 2 - 2m (the odd copy): row 2c gets U, Y0, V of
   * e and Y0 of o; row 2c + 1 gets U of o, Y1 of e, V and Y1 of o.
   */
  function Take(width: int, height: int, c: int, row: int, m: int, b: int): int
  {
    var e, o := height - 1 - 2 * m, height - 2 - 2 * m;
    if row == 0 then (if b == 3 then InAt(width, o, c, 1) else InAt(width, e, c, b))
    else (if b == 1 then InAt(width, e, c, 3) else InAt(width, o, c, b))
  }

  lemma GroupsSize(width: int, height: int)
    requires EvenSize(width, height)
    ensures (width / 2) * (4 * height) == 2 * width * height
  {
    var n := width / 2;
    assert width == 2 * n;
    assert 2 * width * height == 4 * n * height;
  }

  /** Output bytes of group c lie in [c * 4h, c * 4h + 4h), all below 2wh. */
  lemma OutBound(width: int, height: int, c: int, row: int, m: int, b: int)
    requires EvenSize(width, height) && OutSlot(width, height, c, row, m, b)
    ensures 0 <= c * (4 * height) <= OutAt(height, c, row, m, b) < c * (4 * height) + 4 * height
    ensures 0 <= OutAt(height, c, row, m, 0) && OutAt(height, c, row, m, b) < 2 * width * height
  {
    GroupsSize(width, height);
    MulMonotone(4 * height, 0, c);
    MulMonotone(4 * height, c + 1, width / 2);
    assert (c + 1) * (4 * height) == c * (4 * height) + 4 * height;
  }

  /** Groups are laid out one after the other. */
  lemma GroupOrder(height: int, c: int, c': int)
    requires 0 <= height && 0 <= c < c'
    ensures c * (4 * height) + 4 * height <= c' * (4 * height)
    ensures OutAt(height, c + 1, 0, 0, 0) == OutAt(height, c, 0, 0, 0) + 4 * height
  {
    MulMonotone(4 * height, c + 1, c');
    assert (c + 1) * (4 * height) == c * (4 * height) + 4 * height;
  }

  lemma InBound(width: int, height: int, r: int, c: int, b: int)
    requires EvenSize(width, height) && 0 <= r < height && 0 <= c < width / 2 && 0 <= b < 4
    ensures 0 <= InAt(width, r, c, 0) && InAt(width, r, c, b) < 2 * width * height
    ensures InAt(width, r, c, b) == InAt(width, r, c, 0) + b
  {
    MulMonotone(2 * width, r + 1, height);
    MulMonotone(2 * width, 0, r);
    assert (r + 1) * (2 * width) == r * (2 * width) + 2 * width;
    assert height * (2 * width) == 2 * width * height;
  }

  lemma TakeBound(width: int, height: int, c: int, row: int, m: int, b: int)
    requires EvenSize(width, height) && OutSlot(width, height, c, row, m, b)
    ensures 0 <= Take(width, height, c, row, m, b) < 2 * width * height
  {
    var e, o := height - 1 - 2 * m, height - 2 - 2 * m;
    if row == 0 {
      if b == 3 { InBound(width, height, o, c, 1); } else { InBound(width, height, e, c, b); }
    } else {
      if b == 1 { InBound(width, height, e, c, 3); } else { InBound(width, height, o, c, b); }
    }
  }

  /** Output position p, taken apart into its group, row, pair and byte. */
  lemma Decompose(width: int, height: int, p: int)
    requires EvenSize(width, height) && 0 <= p < 2 * width * height
    ensures var g, q := p / (4 * height), p % (4 * height);
      var row, o := q / (2 * height), q % (2 * height);
      OutSlot(width, height, g, row, o / 4, o % 4) && p == OutAt(height, g, row, o / 4, o % 4)
  {
    var g, q := p / (4 * height), p % (4 * height);
    var row, o := q / (2 * height), q % (2 * height);
    GroupsSize(width, height);
    assert height > 0;
    DivMod(p, 4 * height);
    QuotientBound(p, 4 * height, width / 2);
    DivMod(q, 2 * height);
    QuotientBound(q, 2 * height, 2);
    assert o < 4 * (height / 2);
    if row == 0 {
      assert q == o;
    } else {
      assert q == 2 * height + o;
    }
  }

  /** The parts of an output position are the ones Decompose finds. */
  lemma Compose(width: int, height: int, c: int, row: int, m: int, b: int)
    requires EvenSize(width, height) && OutSlot(width, height, c, row, m, b)
    ensures var p := OutAt(height, c, row, m, b);
      var g, q := p / (4 * height), p % (4 * height);
      var o := q % (2 * height);
      g == c && q / (2 * height) == row && o / 4 == m && o % 4 == b
  {
    var p := OutAt(height, c, row, m, b);
    var rest := (if row == 0 then 0 else 2 * height) + 4 * m + b;
    assert 4 * m + b < 2 * height;
    DivModUnique(p, 4 * height, c, rest);
    DivModUnique(rest, 2 * height, row, 4 * m + b);
    DivModUnique(4 * m + b, 4, m, b);
  }

  /** The input byte output position p receives. */
  function RotSource(width: int, height: int, p: int): (q: int)
    requires EvenSize(width, height) && 0 <= p < 2 * width * height
    ensures 0 <= q < 2 * width * height
  {
    var g, r := p / (4 * height), p % (4 * height);
    var row, o := r / (2 * height), r % (2 * height);
    Decompose(width, height, p);
    TakeBound(width, height, g, row, o / 4, o % 4);
    Take(width, height, g, row, o / 4, o % 4)
  }

  /**
   * What the first 2 * width * height bytes of dst hold after
   * yuv422_uyvy_rotate_clockwise_90(dst, s, width, height).
   */
  function Rotated(s: seq<bv8>, width: int, height: int): (r: seq<bv8>)
    requires EvenSize(width, height) && 2 * width * height <= |s|
    ensures |r| == 2 * width * height
  {
    seq(2 * width * height, p requires 0 <= p < 2 * width * height => s[RotSource(width, height, p)])
  }

  lemma RotatedAt(s: seq<bv8>, width: int, height: int, c: int, row: int, m: int, b: int)
    requires EvenSize(width, height) && 2 * width * height <= |s| && OutSlot(width, height, c, row, m, b)
    ensures 0 <= OutAt(height, c, row, m, b) < 2 * width * height
    ensures 0 <= Take(width, height, c, row, m, b) < 2 * width * height
    ensures Rotated(s, width, height)[OutAt(height, c, row, m, b)] == s[Take(width, height, c, row, m, b)]
  {
    OutBound(width, height, c, row, m, b);
    TakeBound(width, height, c, row, m, b);
    Compose(width, height, c, row, m, b);
  }

  /**
   * Pair m of output rows 2c and 2c + 1: with e = h - 1 - 2m and
   * o = h - 2 - 2m, row 2c holds U, Y0, V of input row e and Y0 of input
   * row o; row 2c + 1 holds U of o, Y1 of e, V and Y1 of o.
   */
  lemma RotatedPair(s: seq<bv8>, width: int, height: int, c: int, m: int)
    requires EvenSize(width, height) && 2 * width * height <= |s|
    requires 0 <= c < width / 2 && 0 <= m < height / 2
    ensures var r, top, bottom := Rotated(s, width, height), OutAt(height, c, 0, m, 0), OutAt(height, c, 1, m, 0);
      var e, o := InAt(width, height - 1 - 2 * m, c, 0), InAt(width, height - 2 - 2 * m, c, 0);
      && 0 <= top && top + 4 <= |r| && 0 <= bottom && bottom + 4 <= |r|
      && 0 <= o && o + 4 <= |s| && 0 <= e && e + 4 <= |s|
      && r[top..top + 4] == [s[e], s[e + 1], s[e + 2], s[o + 1]]
      && r[bottom..bottom + 4] == [s[o], s[e + 3], s[o + 2], s[o + 3]]
  {
    hide Rotated, Take, OutAt, InAt, RotSource;
    var r := Rotated(s, width, height);
    var top, bottom := OutAt(height, c, 0, m, 0), OutAt(height, c, 1, m, 0);
    var e, o := InAt(width, height - 1 - 2 * m, c, 0), InAt(width, height - 2 - 2 * m, c, 0);
    PairAt(s, width, height, c, 0, m);
    PairAt(s, width, height, c, 1, m);
    InBound(width, height, height - 1 - 2 * m, c, 3);
    InBound(width, height, height - 2 - 2 * m, c, 3);
    TakeValues(width, height, c, m);
    Four(r, top, s[e], s[e + 1], s[e + 2], s[o + 1]);
    Four(r, bottom, s[o], s[e + 3], s[o + 2], s[o + 3]);
  }

  lemma Four(r: seq<bv8>, at: int, x0: bv8, x1: bv8, x2: bv8, x3: bv8)
    requires 0 <= at && at + 4 <= |r| && r[at] == x0 && r[at + 1] == x1 && r[at + 2] == x2 && r[at + 3] == x3
    ensures r[at..at + 4] == [x0, x1, x2, x3]
  {
  }

  lemma TakeValues(width: int, height: int, c: int, m: int)
    ensures var e, o := InAt(width, height - 1 - 2 * m, c, 0), InAt(width, height - 2 - 2 * m, c, 0);
      && Take(width, height, c, 0, m, 0) == e && Take(width, height, c, 0, m, 1) == e + 1
      && Take(width, height, c, 0, m, 2) == e + 2 && Take(width, height, c, 0, m, 3) == o + 1
      && Take(width, height, c, 1, m, 0) == o && Take(width, height, c, 1, m, 1) == e + 3
      && Take(width, height, c, 1, m, 2) == o + 2 && Take(width, height, c, 1, m, 3) == o + 3
  {
  }

  /** The four bytes of pair m of output row 2c + row, read from the rotation. */
  lemma PairAt(s: seq<bv8>, width: int, height: int, c: int, row: int, m: int)
    requires EvenSize(width, height) && 2 * width * height <= |s|
    requires 0 <= c < width / 2 && 0 <= row < 2 && 0 <= m < height / 2
    ensures var r, at := Rotated(s, width, height), OutAt(height, c, row, m, 0);
      && 0 <= at && at + 4 <= |r|
      && forall b :: 0 <= b < 4 ==> 0 <= Take(width, height, c, row, m, b) < |s| && r[at + b] == s[Take(width, height, c, row, m, b)]
  {
    hide Rotated, OutAt, Take, RotSource;
    forall b | 0 <= b < 4
      ensures OutAt(height, c, row, m, b) == OutAt(height, c, row, m, 0) + b
      ensures 0 <= OutAt(height, c, row, m, 0) + b < 2 * width * height
      ensures 0 <= Take(width, height, c, row, m, b) < |s|
      ensures Rotated(s, width, height)[OutAt(height, c, row, m, 0) + b] == s[Take(width, height, c, row, m, b)]
    {
      RotatedAt(s, width, height, c, row, m, b);
      OutByte(height, c, row, m, b);
    }
    RotatedAt(s, width, height, c, row, m, 3);
    OutByte(height, c, row, m, 3);
  }

  lemma OutByte(height: int, c: int, row: int, m: int, b: int)
    ensures OutAt(height, c, row, m, b) == OutAt(height, c, row, m, 0) + b
  {
  }

  /** Where input byte x lands: the inverse of RotSource. */
  function Landing(width: int, height: int, x: int): int
    requires width > 0 && height > 0
  {
    var r, col := x / (2 * width), x % (2 * width);
    var c, b := col / 4, col % 4;
    var j := height - 1 - r;
    var m := j / 2;
    if j % 2 == 0 then (if b == 3 then OutAt(height, c, 1, m, 1) else OutAt(height, c, 0, m, b))
    else (if b == 1 then OutAt(height, c, 0, m, 3) else OutAt(height, c, 1, m, b))
  }

  lemma LandingTake(width: int, height: int, c: int, row: int, m: int, b: int)
    requires EvenSize(width, height) && OutSlot(width, height, c, row, m, b)
    ensures Landing(width, height, Take(width, height, c, row, m, b)) == OutAt(height, c, row, m, b)
  {
    var e, o := height - 1 - 2 * m, height - 2 - 2 * m;
    var r, b' := if row == 0 then (if b == 3 then o else e) else (if b == 1 then e else o),
      if row == 0 then (if b == 3 then 1 else b) else (if b == 1 then 3 else b);
    assert Take(width, height, c, row, m, b) == InAt(width, r, c, b');
    DivModUnique(InAt(width, r, c, b'), 2 * width, r, 4 * c + b');
    DivModUnique(4 * c + b', 4, c, b');
    DivModUnique(height - 1 - r, 2, m, height - 1 - r - 2 * m);
  }

  /** Landing undoes RotSource: no two output bytes come from the same input byte. */
  lemma LandingRotSource(width: int, height: int, p: int)
    requires EvenSize(width, height) && 0 <= p < 2 * width * height
    ensures width > 0 && height > 0 && Landing(width, height, RotSource(width, height, p)) == p
  {
    var g, q := p / (4 * height), p % (4 * height);
    var row, o := q / (2 * height), q % (2 * height);
    Decompose(width, height, p);
    assert width > 0 && height > 0;
    LandingTake(width, height, g, row, o / 4, o % 4);
  }

  /** The written region is a rearrangement of the first 2 * width * height input bytes. */
  lemma RotatedPermutes(s: seq<bv8>, width: int, height: int)
    requires EvenSize(width, height) && 2 * width * height <= |s|
    ensures multiset(Rotated(s, width, height)) == multiset(s[..2 * width * height])
  {
    hide RotSource, Landing;
    var n := 2 * width * height;
    var from := seq(n, p requires 0 <= p < n => RotSource(width, height, p) as nat);
    forall p, q | 0 <= p < q < n
      ensures from[p] != from[q]
    {
      LandingRotSource(width, height, p);
      LandingRotSource(width, height, q);
    }
    PermutedMultiset(s[..n], Rotated(s, width, height), from);
  }

  // The state of dst while the rotation runs.

  /**
   * Groups before `groups`, and the first `pairs` pairs of group `groups`,
   * hold their final bytes.
   */
  ghost predicate Filled(d: seq<bv8>, s: seq<bv8>, width: int, height: int, groups: int, pairs: int)
  {
    forall c, row, m, b {:trigger OutAt(height, c, row, m, b)} ::
      OutSlot(width, height, c, row, m, b) && (c < groups || (c == groups && m < pairs)) ==>
        0 <= OutAt(height, c, row, m, b) < |d| && 0 <= Take(width, height, c, row, m, b) < |s|
        && d[OutAt(height, c, row, m, b)] == s[Take(width, height, c, row, m, b)]
  }

  /** The even copy of pair m of group c is in place, not yet exchanged with the odd one. */
  ghost predicate Pending(d: seq<bv8>, s: seq<bv8>, width: int, height: int, c: int, m: int)
  {
    forall b :: 0 <= b < 4 ==>
      0 <= OutAt(height, c, 0, m, b) < |d| && 0 <= InAt(width, height - 1 - 2 * m, c, b) < |s|
      && d[OutAt(height, c, 0, m, b)] == s[InAt(width, height - 1 - 2 * m, c, b)]
  }

  /** From position `from` on, d still holds what d0 held. */
  ghost predicate Beyond(d: seq<bv8>, d0: seq<bv8>, from: int)
  {
    |d| == |d0| && forall p :: from <= p < |d| && 0 <= p ==> d[p] == d0[p]
  }

  /** d' is d with the 4 bytes at `at` replaced by the 4 bytes of s at `from`. */
  ghost predicate Copied(d: seq<bv8>, d': seq<bv8>, s: seq<bv8>, at: int, from: int)
  {
    && |d'| == |d| && 0 <= from && from + 4 <= |s|
    && forall p :: 0 <= p < |d'| ==> d'[p] == (if at <= p < at + 4 then s[from + p - at] else d[p])
  }

  /**
   * The bytes already final when pair m of group c is written lie before
   * its even copy, or between its even copy and its odd copy.
   */
  lemma Clear(width: int, height: int, c: int, m: int, c': int, row: int, m': int, b: int)
    requires EvenSize(width, height) && 0 <= c < width / 2 && 0 <= m < height / 2
    requires OutSlot(width, height, c', row, m', b) && (c' < c || (c' == c && m' < m))
    ensures var p, even, odd := OutAt(height, c', row, m', b), OutAt(height, c, 0, m, 0), OutAt(height, c, 1, m, 0);
      0 <= p && (p < even || even + 4 <= p < odd)
  {
    OutBound(width, height, c', row, m', b);
    if c' < c {
      OutBound(width, height, c', row, m', b);
      GroupOrder(height, c', c);
    }
  }

  /** Step j = 2m: the group of input row h - 1 - 2m goes whole into output row 2c. */
  lemma EvenStep(d: seq<bv8>, d': seq<bv8>, d0: seq<bv8>, s: seq<bv8>, width: int, height: int, c: int, m: int, at: int, from: int)
    requires EvenSize(width, height) && 0 <= c < width / 2 && 0 <= m < height / 2
    requires 2 * width * height <= |d| && 2 * width * height <= |s|
    requires at == OutAt(height, c, 0, m, 0) && from == InAt(width, height - 1 - 2 * m, c, 0)
    requires Filled(d, s, width, height, c, m) && Beyond(d, d0, OutAt(height, c + 1, 0, 0, 0))
    requires Copied(d, d', s, at, from)
    ensures Filled(d', s, width, height, c, m) && Pending(d', s, width, height, c, m)
    ensures Beyond(d', d0, OutAt(height, c + 1, 0, 0, 0))
  {
    hide Take, InAt, OutSlot, Filled, Beyond;
    OutBound(width, height, c, 0, m, 3);
    GroupOrder(height, c, c + 1);
    CopiedOutside(d, d', s, at, from);
    KeepFilled(d, d', s, width, height, c, m, at);
    KeepBeyond(d, d', d0, at, OutAt(height, c + 1, 0, 0, 0));
    EvenCopy(d, d', s, width, height, c, m, at, from);
  }

  /** The even copy of pair m, just written, is pending. */
  lemma EvenCopy(d: seq<bv8>, d': seq<bv8>, s: seq<bv8>, width: int, height: int, c: int, m: int, at: int, from: int)
    requires EvenSize(width, height) && 0 <= c < width / 2 && 0 <= m < height / 2 && 2 * width * height <= |d|
    requires at == OutAt(height, c, 0, m, 0) && from == InAt(width, height - 1 - 2 * m, c, 0)
    requires Copied(d, d', s, at, from)
    ensures Pending(d', s, width, height, c, m)
  {
    hide InAt;
    OutBound(width, height, c, 0, m, 3);
    forall b | 0 <= b < 4
      ensures 0 <= OutAt(height, c, 0, m, b) < |d'| && 0 <= InAt(width, height - 1 - 2 * m, c, b) < |s|
      ensures d'[OutAt(height, c, 0, m, b)] == s[InAt(width, height - 1 - 2 * m, c, b)]
    {
      InBound(width, height, height - 1 - 2 * m, c, b);
    }
  }

  /** d' differs from d at most in [lo, hi). */
  ghost predicate SameOutside(d: seq<bv8>, d': seq<bv8>, lo: int, hi: int)
  {
    |d'| == |d| && forall p :: 0 <= p < |d| && !(lo <= p < hi) ==> d'[p] == d[p]
  }

  lemma CopiedOutside(d: seq<bv8>, d': seq<bv8>, s: seq<bv8>, at: int, from: int)
    requires Copied(d, d', s, at, from)
    ensures SameOutside(d, d', at, at + 4)
  {
  }

  /** Writing the even copy of pair m keeps every byte already final. */
  lemma KeepFilled(d: seq<bv8>, d': seq<bv8>, s: seq<bv8>, width: int, height: int, c: int, m: int, at: int)
    requires EvenSize(width, height) && 0 <= c < width / 2 && 0 <= m < height / 2
    requires at == OutAt(height, c, 0, m, 0)
    requires Filled(d, s, width, height, c, m) && SameOutside(d, d', at, at + 4)
    ensures Filled(d', s, width, height, c, m)
  {
    hide Take;
    forall c', row, m', b | OutSlot(width, height, c', row, m', b) && (c' < c || (c' == c && m' < m))
      ensures OutAt(height, c', row, m', b) < at || at + 4 <= OutAt(height, c', row, m', b)
    {
      Clear(width, height, c, m, c', row, m', b);
    }
  }

  lemma KeepBeyond(d: seq<bv8>, d': seq<bv8>, d0: seq<bv8>, at: int, limit: int)
    requires Beyond(d, d0, limit) && SameOutside(d, d', at, at + 4) && at + 4 <= limit
    ensures Beyond(d', d0, limit)
  {
  }

  /** The exchange of byte 3 of the even copy with byte 1 of the odd copy. */
  ghost predicate Exchanged(d1: seq<bv8>, d2: seq<bv8>, height: int, c: int, m: int)
  {
    var x, y := OutAt(height, c, 0, m, 3), OutAt(height, c, 1, m, 1);
    0 <= x < |d1| && 0 <= y < |d1| && d2 == d1[x := d1[y]][y := d1[x]]
  }

  /** After the odd copy and the exchange, both halves of pair m hold their final bytes. */
  lemma PairFinal(d: seq<bv8>, d1: seq<bv8>, d2: seq<bv8>, s: seq<bv8>, width: int, height: int, c: int, m: int)
    requires EvenSize(width, height) && 0 <= c < width / 2 && 0 <= m < height / 2
    requires 2 * width * height <= |d| && 2 * width * height <= |s|
    requires Pending(d, s, width, height, c, m)
    requires Copied(d, d1, s, OutAt(height, c, 1, m, 0), InAt(width, height - 2 - 2 * m, c, 0))
    requires Exchanged(d1, d2, height, c, m)
    ensures forall row, b :: 0 <= row < 2 && 0 <= b < 4 ==>
      0 <= OutAt(height, c, row, m, b) < |d2| && 0 <= Take(width, height, c, row, m, b) < |s|
      && d2[OutAt(height, c, row, m, b)] == s[Take(width, height, c, row, m, b)]
  {
    hide OutAt, InAt, Pending;
    var even, odd := OutAt(height, c, 0, m, 0), OutAt(height, c, 1, m, 0);
    var e, o := InAt(width, height - 1 - 2 * m, c, 0), InAt(width, height - 2 - 2 * m, c, 0);
    OutBound(width, height, c, 0, m, 3);
    OutBound(width, height, c, 1, m, 3);
    OutSteps(height, c, 0, m);
    OutSteps(height, c, 1, m);
    InBound(width, height, height - 1 - 2 * m, c, 3);
    InBound(width, height, height - 2 - 2 * m, c, 3);
    assert even + 4 <= odd;
    assert Exchanged(d1, d2, height, c, m);
    forall row, b | 0 <= row < 2 && 0 <= b < 4
      ensures 0 <= OutAt(height, c, row, m, b) < |d2| && 0 <= Take(width, height, c, row, m, b) < |s|
      ensures d2[OutAt(height, c, row, m, b)] == s[Take(width, height, c, row, m, b)]
    {
      OutByte(height, c, 0, m, b);
      OutByte(height, c, 1, m, b);
      InBound(width, height, height - 1 - 2 * m, c, b);
      InBound(width, height, height - 2 - 2 * m, c, b);
      InBound(width, height, height - 2 - 2 * m, c, 1);
      TakeBound(width, height, c, row, m, b);
      PendingAt(d, s, width, height, c, m, b);
      PendingAt(d, s, width, height, c, m, 3);
      PairByte(d, d1, d2, s, even, odd, e, o, row, b);
    }
  }

  /** One byte of pair m after the odd copy and the exchange, on plain offsets. */
  lemma PairByte(d: seq<bv8>, d1: seq<bv8>, d2: seq<bv8>, s: seq<bv8>, even: int, odd: int, e: int, o: int, row: int, b: int)
    requires 0 <= even && even + 4 <= odd && odd + 4 <= |d| && 0 <= e && e + 4 <= |s| && 0 <= o && o + 4 <= |s|
    requires 0 <= row < 2 && 0 <= b < 4 && d[even + b] == s[e + b] && d[even + 3] == s[e + 3]
    requires Copied(d, d1, s, odd, o) && d2 == d1[even + 3 := d1[odd + 1]][odd + 1 := d1[even + 3]]
    ensures row == 0 ==> d2[even + b] == s[if b == 3 then o + 1 else e + b]
    ensures row == 1 ==> d2[odd + b] == s[if b == 1 then e + 3 else o + b]
  {
  }

  lemma PendingAt(d: seq<bv8>, s: seq<bv8>, width: int, height: int, c: int, m: int, b: int)
    requires Pending(d, s, width, height, c, m) && 0 <= b < 4
    ensures 0 <= OutAt(height, c, 0, m, b) < |d| && 0 <= InAt(width, height - 1 - 2 * m, c, b) < |s|
    ensures d[OutAt(height, c, 0, m, b)] == s[InAt(width, height - 1 - 2 * m, c, b)]
  {
  }

  /**
   * Step j = 2m + 1: the group of input row h - 2 - 2m goes whole into
   * output row 2c + 1, then byte 3 of the even copy and byte 1 of the odd
   * copy are exchanged; pair m is then final in both rows.
   */
  lemma OddStep(d: seq<bv8>, d1: seq<bv8>, d2: seq<bv8>, d0: seq<bv8>, s: seq<bv8>, width: int, height: int, c: int, m: int, next: int, at: int, from: int)
    requires EvenSize(width, height) && 0 <= c < width / 2 && 0 <= m < height / 2 && next == m + 1
    requires 2 * width * height <= |d| && 2 * width * height <= |s|
    requires at == OutAt(height, c, 1, m, 0) && from == InAt(width, height - 2 - 2 * m, c, 0)
    requires Filled(d, s, width, height, c, m) && Pending(d, s, width, height, c, m)
    requires Beyond(d, d0, OutAt(height, c + 1, 0, 0, 0))
    requires Copied(d, d1, s, at, from)
    requires Exchanged(d1, d2, height, c, m)
    ensures Filled(d2, s, width, height, c, next)
    ensures Beyond(d2, d0, OutAt(height, c + 1, 0, 0, 0))
  {
    hide InAt, Take, Pending;
    PairFinal(d, d1, d2, s, width, height, c, m);
    OutBound(width, height, c, 1, m, 3);
    OutSteps(height, c, 0, m);
    OutSteps(height, c, 1, m);
    GroupOrder(height, c, c + 1);
    forall c', row, m', b | OutSlot(width, height, c', row, m', b) && (c' < c || (c' == c && m' < next))
      ensures 0 <= OutAt(height, c', row, m', b) < |d2| && 0 <= Take(width, height, c', row, m', b) < |s|
      ensures d2[OutAt(height, c', row, m', b)] == s[Take(width, height, c', row, m', b)]
    {
      if c' < c || m' < m {
        Clear(width, height, c, m, c', row, m', b);
      } else {
        assert c' == c && m' == m;
      }
    }
  }

  /** A group whose every pair is final leaves the next group to fill. */
  lemma GroupDone(d: seq<bv8>, s: seq<bv8>, width: int, height: int, c: int)
    requires Filled(d, s, width, height, c, height / 2)
    ensures Filled(d, s, width, height, c + 1, 0)
  {
  }

  /** Every group filled: the written region is the rotation of s. */
  lemma AllGroupsDone(d: seq<bv8>, s: seq<bv8>, width: int, height: int)
    requires EvenSize(width, height) && 2 * width * height <= |s| && 2 * width * height <= |d|
    requires Filled(d, s, width, height, width / 2, 0)
    ensures d[..2 * width * height] == Rotated(s, width, height)
  {
    hide Take, OutAt, RotSource;
    var n := 2 * width * height;
    forall p | 0 <= p < n
      ensures d[p] == Rotated(s, width, height)[p]
    {
      var g, q := p / (4 * height), p % (4 * height);
      var row, o := q / (2 * height), q % (2 * height);
      Decompose(width, height, p);
      RotatedAt(s, width, height, g, row, o / 4, o % 4);
    }
  }

  lemma OutSteps(height: int, c: int, row: int, m: int)
    ensures OutAt(height, c, row, m, 3) == OutAt(height, c, row, m, 0) + 3
    ensures OutAt(height, c, row, m, 1) == OutAt(height, c, row, m, 0) + 1
    ensures OutAt(height, c, row, m + 1, 0) == OutAt(height, c, row, m, 0) + 4
    ensures OutAt(height, c, 1, 0, 0) == OutAt(height, c, 0, 0, 0) + 2 * height
    ensures OutAt(height, c, 1, m, 0) == OutAt(height, c, 0, m, 0) + 2 * height
  {
  }

  lemma InSteps(width: int, height: int, r: int, c: int)
    ensures InAt(width, r - 1, c, 0) == InAt(width, r, c, 0) - 2 * width
    ensures InAt(width, height - 1, c, 0) == 4 * c + (height - 1) * (2 * width)
  {
  }

  /** The bytes step j of group c reads and writes, and where the next step starts. */
  lemma Window(width: int, height: int, c: int, m: int, j: int)
    requires EvenSize(width, height) && 0 <= c < width / 2 && 0 <= j < height && 0 <= m && (j == 2 * m || j == 2 * m + 1)
    ensures var even, odd := OutAt(height, c, 0, m, 0), OutAt(height, c, 1, m, 0);
      && 0 <= even && even + 4 <= odd && odd + 4 <= OutAt(height, c + 1, 0, 0, 0) <= 2 * width * height
      && OutAt(height, c, 0, m + 1, 0) == even + 4 && OutAt(height, c, 1, m + 1, 0) == odd + 4
      && OutAt(height, c, 0, m, 3) == even + 3 && OutAt(height, c, 1, m, 1) == odd + 1
    ensures var from := InAt(width, height - 1 - j, c, 0);
      && 0 <= from && from + 4 <= 2 * width * height
      && InAt(width, height - 1 - (j + 1), c, 0) == from - 2 * width
      && (j == 2 * m ==> from == InAt(width, height - 1 - 2 * m, c, 0))
      && (j == 2 * m + 1 ==> from == InAt(width, height - 2 - 2 * m, c, 0))
  {
    hide OutAt, InAt;
    OutWindow(width, height, c, m);
    InWindow(width, height, c, m, j);
  }

  lemma OutWindow(width: int, height: int, c: int, m: int)
    requires EvenSize(width, height) && 0 <= c < width / 2 && 0 <= m < height / 2
    ensures var even, odd := OutAt(height, c, 0, m, 0), OutAt(height, c, 1, m, 0);
      && 0 <= even && even + 4 <= odd && odd + 4 <= OutAt(height, c + 1, 0, 0, 0) <= 2 * width * height
      && OutAt(height, c, 0, m + 1, 0) == even + 4 && OutAt(height, c, 1, m + 1, 0) == odd + 4
      && OutAt(height, c, 0, m, 3) == even + 3 && OutAt(height, c, 1, m, 1) == odd + 1
  {
    var g := c * (4 * height);
    GroupsSize(width, height);
    MulMonotone(4 * height, 0, c);
    MulMonotone(4 * height, c + 1, width / 2);
    assert (c + 1) * (4 * height) == g + 4 * height;
  }

  lemma InWindow(width: int, height: int, c: int, m: int, j: int)
    requires EvenSize(width, height) && 0 <= c < width / 2 && 0 <= j < height && (j == 2 * m || j == 2 * m + 1)
    ensures var from := InAt(width, height - 1 - j, c, 0);
      && 0 <= from && from + 4 <= 2 * width * height
      && InAt(width, height - 1 - (j + 1), c, 0) == from - 2 * width
      && (j == 2 * m ==> from == InAt(width, height - 1 - 2 * m, c, 0))
      && (j == 2 * m + 1 ==> from == InAt(width, height - 2 - 2 * m, c, 0))
  {
    InBound(width, height, height - 1 - j, c, 3);
  }

  lemma GroupStart(height: int, c: int)
    ensures OutAt(height, c, 0, 0, 0) == c * (4 * height)
  {
  }

  lemma Start(d: seq<bv8>, s: seq<bv8>, width: int, height: int)
    ensures Filled(d, s, width, height, 0, 0) && Beyond(d, d, 0)
  {
  }

  lemma BeyondFurther(d: seq<bv8>, d0: seq<bv8>, from: int, to: int)
    requires Beyond(d, d0, from) && from <= to
    ensures Beyond(d, d0, to)
  {
  }

  lemma BeyondTail(d: seq<bv8>, d0: seq<bv8>, from: int)
    requires Beyond(d, d0, from) && 0 <= from <= |d|
    ensures d[from..] == d0[from..]
  {
    assert forall p :: 0 <= p < |d| - from ==> d[from..][p] == d[from + p];
  }

  /** The 4-byte unaligned copy `*(uint32_t *)to = *(uint32_t *)from`, byte by byte. */
  method CopyWord(dst: array<bv8>, at: int, src: array<bv8>, from: int)
    requires dst != src && 0 <= at && at + 4 <= dst.Length && 0 <= from && from + 4 <= src.Length
    modifies dst
    ensures Copied(old(dst[..]), dst[..], src[..], at, from)
  {
    dst[at] := src[from];
    dst[at + 1] := src[from + 1];
    dst[at + 2] := src[from + 2];
    dst[at + 3] := src[from + 3];
  }

  /** `temp = *x; *x = *y; *y = temp`, on the bytes at x and y. */
  method ExchangeBytes(dst: array<bv8>, x: int, y: int)
    requires 0 <= x < dst.Length && 0 <= y < dst.Length
    modifies dst
    ensures dst[..] == old(dst[..])[x := old(dst[y])][y := old(dst[x])]
  {
    var temp := dst[x];
    dst[x] := dst[y];
    dst[y] := temp;
  }

  /**
   * The inner loop of yuv422_uyvy_rotate_clockwise_90 for column group c:
   * pdst[0] walks output row 2c and pdst[1] output row 2c + 1 from `dest`,
   * psrc walks the input bottom-up from row h - 1; afterwards group c holds
   * its final bytes and nothing from the next group on has changed.
   */
  method RotateGroup(dst: array<bv8>, src: array<bv8>, width: int, height: int, dest: int, start: int, ghost c: int, ghost d0: seq<bv8>)
    requires EvenSize(width, height) && 2 * width * height <= src.Length && 2 * width * height <= dst.Length
    requires dst != src && 0 <= c < width / 2
    requires dest == OutAt(height, c, 0, 0, 0) && start == InAt(width, height - 1, c, 0)
    requires Filled(dst[..], src[..], width, height, c, 0) && Beyond(dst[..], d0, dest)
    modifies dst
    ensures Filled(dst[..], src[..], width, height, c + 1, 0)
    ensures Beyond(dst[..], d0, OutAt(height, c + 1, 0, 0, 0))
  {
    hide OutAt, InAt, Take, Filled, Pending, Beyond, Copied, Rotated, RotSource, Landing, OutSlot;
    ghost var s := src[..];
    var copyBytes := 4;
    var bytesPerLine := 2 * width;
    var pdst := [dest, dest + 2 * height];
    var psrc := start;
    OutSteps(height, c, 0, 0);
    GroupOrder(height, c, c + 1);
    BeyondFurther(dst[..], d0, dest, OutAt(height, c + 1, 0, 0, 0));
    var j := 0;
    ghost var m := 0;
    while j < height
      invariant 0 <= j <= height && 0 <= m && (j == 2 * m || j == 2 * m + 1) && |pdst| == 2
      invariant pdst[0] == OutAt(height, c, 0, m, 0) + 4 * (j - 2 * m) && pdst[1] == OutAt(height, c, 1, m, 0)
      invariant psrc == InAt(width, height - 1 - j, c, 0)
      invariant Filled(dst[..], s, width, height, c, m)
      invariant j == 2 * m + 1 ==> Pending(dst[..], s, width, height, c, m)
      invariant Beyond(dst[..], d0, OutAt(height, c + 1, 0, 0, 0))
    {
      var k := j % 2;
      ghost var before := dst[..];
      Window(width, height, c, m, j);
      CopyWord(dst, pdst[k], src, psrc);
      if k == 1 {
        ghost var copied := dst[..];
        ExchangeBytes(dst, pdst[0] - 1, pdst[1] + 1);
        OddStep(before, copied, dst[..], d0, s, width, height, c, m, m + 1, pdst[1], psrc);
      } else {
        EvenStep(before, dst[..], d0, s, width, height, c, m, pdst[0], psrc);
      }
      pdst := pdst[k := pdst[k] + copyBytes];
      psrc := psrc - bytesPerLine;
      j := j + 1;
      if k == 1 {
        m := m + 1;
      }
    }
    assert m == height / 2;
    GroupDone(dst[..], s, width, height, c);
  }

  /**
   * yuv422_uyvy_rotate_clockwise_90: the first 2 * width * height bytes of
   * dst become the rotation of src; the rest of dst, and src, stay as they
   * were; dst is returned.
   */
  method RotateClockwise90(dst: array<bv8>, src: array<bv8>, width: int, height: int) returns (r: array<bv8>)
    requires EvenSize(width, height) && 2 * width * height <= src.Length && 2 * width * height <= dst.Length
    requires dst != src
    modifies dst
    ensures r == dst
    ensures dst[..2 * width * height] == Rotated(src[..], width, height)
    ensures dst[2 * width * height..] == old(dst[2 * width * height..])
  {
    hide OutAt, InAt, Take, Filled, Pending, Beyond, Copied, Rotated, RotSource, Landing, OutSlot;
    ghost var s, d0 := src[..], dst[..];
    var copyBytes := 4;
    var bytesPerLine := 2 * width;
    var step := 4 * height;
    var offset := (height - 1) * bytesPerLine;
    var dest := 0;
    var column := 0;
    ghost var c := 0;
    Start(d0, s, width, height);
    GroupStart(height, 0);
    var i := 0;
    while i < bytesPerLine
      invariant 0 <= c <= width / 2 && i == 4 * c && column == 4 * c && dest == OutAt(height, c, 0, 0, 0)
      invariant Filled(dst[..], s, width, height, c, 0) && Beyond(dst[..], d0, dest)
    {
      InSteps(width, height, height - 1, c);
      RotateGroup(dst, src, width, height, dest, column + offset, c, d0);
      GroupOrder(height, c, c + 1);
      dest := dest + step;
      column := column + copyBytes;
      i := i + copyBytes;
      c := c + 1;
    }
    GroupsSize(width, height);
    GroupStart(height, width / 2);
    AllGroupsDone(dst[..], s, width, height);
    BeyondTail(dst[..], d0, 2 * width * height);
    return dst;
  }
}

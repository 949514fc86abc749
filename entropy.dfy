/**
 * Huffman coding of one quantized 8x8 block in zig-zag order (sections
 * F.1.2.1 and F.1.2.2 of ITU-T T.81): the DC difference from the previous
 * block of the same component, then the AC coefficients as runs of zeros,
 * ZRL (a run of 16 zeros) and EOB (all remaining coefficients are zero).
 */
module EntropyCoding {
  import opened Arith
  import opened BitStream
  import opened Vli
  import opened Huffman

  /** One unit of the AC part of a block. */
  datatype AcToken = Run(zeros: nat, value: int) | Zrl | Eob

  /** The composite symbol RRRRSSSS that announces a token. */
  function Symbol(t: AcToken): nat
  {
    match t
    case Run(z, v) => z * 16 + Category(v)
    case Zrl => 0xF0
    case Eob => 0x00
  }

  function Zrls(n: nat): (r: seq<AcToken>)
    ensures |r| == n && forall i :: 0 <= i < n ==> r[i] == Zrl
  {
    seq(n, _ => Zrl)
  }

  /**
   * The tokens for the coefficients du[k..63] when r zero coefficients have
   * been skipped just before index k, following the procedure of Figure F.2:
   * zeros extend the run; a zero at index 63 ends the block with EOB; a
   * nonzero value first sends one ZRL per full 16 zeros of the run.
   */
  function AcTokens(du: seq<int>, k: nat, r: nat): seq<AcToken>
    requires |du| == 64 && 1 <= k <= 64
    decreases 64 - k
  {
    if k == 64 then []
    else if du[k] == 0 then (if k == 63 then [Eob] else AcTokens(du, k + 1, r + 1))
    else Zrls(r / 16) + [Run(r % 16, du[k])] + AcTokens(du, k + 1, 0)
  }

  /** The AC tokens of a whole block. */
  function BlockTokens(du: seq<int>): seq<AcToken>
    requires |du| == 64
  {
    AcTokens(du, 1, 0)
  }

  function ZeroRun(n: nat): (r: seq<int>)
    ensures |r| == n && forall i :: 0 <= i < n ==> r[i] == 0
  {
    seq(n, _ => 0)
  }

  /** What a decoder rebuilds from the tokens, starting at coefficient index k. */
  function DecodeAc(tokens: seq<AcToken>, k: nat): seq<int>
    decreases |tokens|
  {
    if tokens == [] then []
    else match tokens[0]
      case Zrl => ZeroRun(16) + DecodeAc(tokens[1..], k + 16)
      case Run(z, v) => ZeroRun(z) + [v] + DecodeAc(tokens[1..], k + z + 1)
      case Eob => if k <= 64 then ZeroRun(64 - k) else []
  }

  lemma {:induction false} DecodeZrls(n: nat, rest: seq<AcToken>, k: nat)
    ensures DecodeAc(Zrls(n) + rest, k) == ZeroRun(16 * n) + DecodeAc(rest, k + 16 * n)
  {
    if n > 0 {
      var t := Zrls(n) + rest;
      assert t[0] == Zrl && t[1..] == Zrls(n - 1) + rest;
      DecodeZrls(n - 1, rest, k + 16);
      assert ZeroRun(16) + ZeroRun(16 * (n - 1)) == ZeroRun(16 * n);
    } else {
      assert Zrls(n) + rest == rest;
    }
  }

  /**
   * Decoding the tokens of du[k..] (with the r zeros before k) gives back
   * exactly du[k - r..].
   */
  lemma {:induction false} DecodeAcTokens(du: seq<int>, k: nat, r: nat)
    requires |du| == 64 && 1 <= k <= 64 && r < k && (k == 64 ==> r == 0)
    requires forall j :: k - r <= j < k ==> du[j] == 0
    ensures DecodeAc(AcTokens(du, k, r), k - r) == du[k - r..]
    decreases 64 - k
  {
    if k == 64 {
    } else if du[k] == 0 {
      if k == 63 {
        assert DecodeAc([Eob], k - r) == ZeroRun(r + 1);
      } else {
        DecodeAcTokens(du, k + 1, r + 1);
      }
    } else {
      DecodeAcTokens(du, k + 1, 0);
      DecodeNonzero(du, k, r);
    }
  }

  /** The step of DecodeAcTokens at a nonzero coefficient. */
  lemma DecodeNonzero(du: seq<int>, k: nat, r: nat)
    requires |du| == 64 && 1 <= k < 64 && r < k && du[k] != 0
    requires forall j :: k - r <= j < k ==> du[j] == 0
    requires DecodeAc(AcTokens(du, k + 1, 0), k + 1) == du[k + 1..]
    ensures DecodeAc(AcTokens(du, k, r), k - r) == du[k - r..]
  {
    var q, m := r / 16, r % 16;
    var rest := AcTokens(du, k + 1, 0);
    var tail := [Run(m, du[k])] + rest;
    hide AcTokens, DecodeAc, ZeroRun, Zrls;
    AcTokensNonzero(du, k, r);
    DecodeZrls(q, tail, k - r);
    DecodeRun(m, du[k], rest, k - r + 16 * q, k + 1);
    ZerosBefore(du, k - r, k, r);
    ZeroRunJoin(16 * q, m, r, du[k], du[k + 1..]);
  }

  lemma AcTokensNonzero(du: seq<int>, k: nat, r: nat)
    requires |du| == 64 && 1 <= k < 64 && du[k] != 0
    ensures AcTokens(du, k, r) == Zrls(r / 16) + ([Run(r % 16, du[k])] + AcTokens(du, k + 1, 0))
  {
    hide Zrls;
    assert AcTokens(du, k, r) == Zrls(r / 16) + [Run(r % 16, du[k])] + AcTokens(du, k + 1, 0);
  }

  /** Decoding starts with one Run token: its zeros, its value, then the rest. */
  lemma DecodeRun(z: nat, v: int, rest: seq<AcToken>, k: nat, next: nat)
    requires next == k + z + 1
    ensures DecodeAc([Run(z, v)] + rest, k) == ZeroRun(z) + [v] + DecodeAc(rest, next)
  {
    var t := [Run(z, v)] + rest;
    assert t[0] == Run(z, v) && t[1..] == rest;
  }

  /** A stretch of zeros before index k reads as a zero run. */
  lemma ZerosBefore(du: seq<int>, lo: nat, k: nat, n: nat)
    requires lo <= k < |du| && n == k - lo && forall j :: lo <= j < k ==> du[j] == 0
    ensures du[lo..] == ZeroRun(n) + [du[k]] + du[k + 1..]
  {
    assert du[lo..] == du[lo..k] + [du[k]] + du[k + 1..];
  }

  lemma ZeroRunJoin(a: nat, b: nat, n: nat, x: int, t: seq<int>)
    requires n == a + b
    ensures ZeroRun(a) + (ZeroRun(b) + [x] + t) == ZeroRun(n) + [x] + t
  {
    assert ZeroRun(a) + ZeroRun(b) == ZeroRun(a + b);
  }

  /** Decoding a block's AC tokens restores its 63 AC coefficients. */
  lemma AcRoundTrip(du: seq<int>)
    requires |du| == 64
    ensures DecodeAc(BlockTokens(du), 1) == du[1..]
  {
    DecodeAcTokens(du, 1, 0);
  }

  /**
   * Sixteen more zeros before a later nonzero coefficient cost exactly one
   * more ZRL, sent first.
   */
  lemma {:induction false} ZrlForSixteenZeros(du: seq<int>, k: nat, r: nat, j: nat)
    requires |du| == 64 && 1 <= k <= j < 64 && du[j] != 0
    ensures AcTokens(du, k, r + 16) == [Zrl] + AcTokens(du, k, r)
    decreases j - k
  {
    if du[k] == 0 {
      ZrlForSixteenZeros(du, k + 1, r + 1, j);
    } else {
      assert (r + 16) / 16 == r / 16 + 1 && (r + 16) % 16 == r % 16;
      assert Zrls(r / 16 + 1) == [Zrl] + Zrls(r / 16);
    }
  }

  /** A run of zeros to the end of the block is sent as a single EOB. */
  lemma {:induction false} TrailingZerosEob(du: seq<int>, k: nat, r: nat)
    requires |du| == 64 && 1 <= k < 64 && forall j :: k <= j < 64 ==> du[j] == 0
    ensures AcTokens(du, k, r) == [Eob]
    decreases 64 - k
  {
    if k < 63 {
      TrailingZerosEob(du, k + 1, r + 1);
    }
  }

  /**
   * A zero coefficient before the last nonzero one lengthens the run; the
   * sixteenth zero of a run sends a ZRL and starts the run again.
   */
  lemma ZeroAdvance(du: seq<int>, start: nat, k: nat, r: nat, last: nat, sent: seq<AcToken>)
    requires |du| == 64 && 1 <= start <= k < last < 64 && du[k] == 0 && du[last] != 0 && r < 16
    requires AcTokens(du, start, 0) == sent + AcTokens(du, k, r)
    ensures r + 1 < 16 ==> AcTokens(du, start, 0) == sent + AcTokens(du, k + 1, r + 1)
    ensures r + 1 == 16 ==> AcTokens(du, start, 0) == (sent + [Zrl]) + AcTokens(du, k + 1, 0)
  {
    assert AcTokens(du, k, r) == AcTokens(du, k + 1, r + 1);
    if r + 1 == 16 {
      ZrlForSixteenZeros(du, k + 1, 0, last);
      assert sent + ([Zrl] + AcTokens(du, k + 1, 0)) == (sent + [Zrl]) + AcTokens(du, k + 1, 0);
    }
  }

  /** The tokens of a nonzero coefficient with a run shorter than 16. */
  lemma NonzeroToken(du: seq<int>, k: nat, r: nat)
    requires |du| == 64 && 1 <= k < 64 && du[k] != 0 && r < 16
    ensures AcTokens(du, k, r) == [Run(r, du[k])] + AcTokens(du, k + 1, 0)
  {
    assert Zrls(0) == [];
  }

  /** The index of the last nonzero AC coefficient, or 0 when there is none. */
  function LastNonZero(du: seq<int>): (last: nat)
    requires |du| == 64
    ensures last < 64
    ensures last > 0 ==> du[last] != 0
    ensures forall j :: last < j < 64 && j >= 1 ==> du[j] == 0
  {
    LastNonZeroBelow(du, 64)
  }

  function LastNonZeroBelow(du: seq<int>, n: nat): (last: nat)
    requires |du| == 64 && 1 <= n <= 64
    ensures last < n
    ensures last > 0 ==> du[last] != 0
    ensures forall j :: last < j < n && j >= 1 ==> du[j] == 0
  {
    if n == 1 then 0
    else if du[n - 1] != 0 then n - 1
    else LastNonZeroBelow(du, n - 1)
  }

  /**
   * Where the last nonzero coefficient is not at index 63 the block ends in
   * EOB; otherwise no EOB is sent. An all-zero AC part is just EOB.
   */
  lemma EobExactly(du: seq<int>)
    requires |du| == 64
    ensures LastNonZero(du) == 0 ==> BlockTokens(du) == [Eob]
    ensures LastNonZero(du) != 63 <==> Eob in BlockTokens(du)
    ensures Eob in BlockTokens(du) ==> BlockTokens(du)[|BlockTokens(du)| - 1] == Eob
  {
    var last := LastNonZero(du);
    if last == 0 {
      TrailingZerosEob(du, 1, 0);
    }
    EobShape(du, 1, 0);
  }

  /** From index k on, the tokens hold no EOB except a final one, present exactly when du[63] is zero. */
  lemma {:induction false} EobShape(du: seq<int>, k: nat, r: nat)
    requires |du| == 64 && 1 <= k <= 64 && (k == 64 ==> r == 0)
    ensures var t := AcTokens(du, k, r);
      && (Eob in t <==> (k < 64 && du[63] == 0))
      && (Eob in t ==> t[|t| - 1] == Eob && Eob !in t[..|t| - 1])
    decreases 64 - k
  {
    var t := AcTokens(du, k, r);
    if k == 64 {
    } else if du[k] == 0 {
      if k < 63 {
        EobShape(du, k + 1, r + 1);
      }
    } else {
      EobShape(du, k + 1, 0);
      var rest := AcTokens(du, k + 1, 0);
      var head := Zrls(r / 16) + [Run(r % 16, du[k])];
      assert t == head + rest;
      assert Eob !in head;
      if Eob in rest {
        assert t[..|t| - 1] == head + rest[..|rest| - 1];
      }
      assert k + 1 == 64 ==> du[63] != 0;
    }
  }

  /** A well-formed token: a run below 16 before a nonzero value of category at most 10. */
  ghost predicate TokenInRange(t: AcToken)
  {
    t.Run? ==> t.zeros < 16 && t.value != 0 && 1 <= Category(t.value) <= 10
  }

  /** The AC coefficients have categories of at most 10, as baseline coding requires. */
  ghost predicate AcInRange(du: seq<int>)
    requires |du| == 64
  {
    forall i :: 1 <= i < 64 ==> Category(du[i]) <= 10
  }

  /**
   * A token sequence in which every symbol is (run << 4) | category with run
   * < 16 and category in 1..10, or ZRL (0xF0), or EOB (0x00), and in which a
   * ZRL is always followed by another ZRL or by a coefficient, never by EOB
   * or the end of the block.
   */
  ghost predicate WellFormed(t: seq<AcToken>)
  {
    && (forall i :: 0 <= i < |t| ==> TokenInRange(t[i]) && Symbol(t[i]) < 256)
    && (forall i :: 0 <= i < |t| && t[i] == Zrl ==> i + 1 < |t| && t[i + 1] != Eob)
  }

  /** The tokens of every block with baseline-sized AC coefficients are well formed. */
  lemma {:induction false} TokensInRange(du: seq<int>, k: nat, r: nat)
    requires |du| == 64 && 1 <= k <= 64 && AcInRange(du)
    ensures WellFormed(AcTokens(du, k, r))
    decreases 64 - k
  {
    if k == 64 {
    } else if du[k] == 0 {
      if k < 63 {
        TokensInRange(du, k + 1, r + 1);
      }
    } else {
      TokensInRange(du, k + 1, 0);
      var run := Run(r % 16, du[k]);
      CategoryBounds(du[k]);
      assert TokenInRange(run) && Symbol(run) < 256;
      PrefixWellFormed(r / 16, run, AcTokens(du, k + 1, 0));
    }
  }

  /** ZRLs and a coefficient token in front of well-formed tokens keep them well formed. */
  lemma PrefixWellFormed(n: nat, run: AcToken, rest: seq<AcToken>)
    requires run.Run? && TokenInRange(run) && Symbol(run) < 256 && WellFormed(rest)
    ensures WellFormed(Zrls(n) + [run] + rest)
  {
    var zs := Zrls(n);
    var t := zs + [run] + rest;
    forall i | 0 <= i < |t|
      ensures TokenInRange(t[i]) && Symbol(t[i]) < 256
      ensures t[i] == Zrl ==> i + 1 < |t| && t[i + 1] != Eob
    {
      if i < |zs| {
        assert t[i] == Zrl;
        if i + 1 < |zs| {
          assert t[i + 1] == Zrl;
        } else {
          assert t[i + 1] == run;
        }
      } else if i == |zs| {
        assert t[i] == run;
      } else {
        assert t[i] == rest[i - |zs| - 1];
        if i + 1 < |t| {
          assert t[i + 1] == rest[i - |zs|];
        }
      }
    }
  }

  /** The code of a symbol in an expanded table, as (code, length) bits; nothing for a symbol outside it. */
  function HuffCode(t: HuffTable, sym: nat): seq<bool>
  {
    if sym < |t.size| && sym < |t.code| then BitsOf(t.code[sym], t.size[sym]) else []
  }

  /** The bits of one AC token: its symbol's code, then the value's additional bits. */
  function TokenBits(tok: AcToken, ac: HuffTable): seq<bool>
  {
    match tok
    case Run(_, v) => HuffCode(ac, Symbol(tok)) + BitsOf(AdditionalBits(v), Category(v))
    case _ => HuffCode(ac, Symbol(tok))
  }

  function TokensBits(ts: seq<AcToken>, ac: HuffTable): seq<bool>
  {
    if ts == [] then [] else TokensBits(ts[..|ts| - 1], ac) + TokenBits(ts[|ts| - 1], ac)
  }

  lemma {:induction false} TokensBitsConcat(a: seq<AcToken>, b: seq<AcToken>, ac: HuffTable)
    ensures TokensBits(a + b, ac) == TokensBits(a, ac) + TokensBits(b, ac)
  {
    if b == [] {
      assert a + b == a;
    } else {
      var b' := b[..|b| - 1];
      assert (a + b)[..|a + b| - 1] == a + b';
      TokensBitsConcat(a, b', ac);
    }
  }

  /** One more token adds its bits at the end. */
  lemma TokensBitsSnoc(sent: seq<bool>, ts: seq<AcToken>, t: AcToken, ac: HuffTable)
    ensures sent + TokensBits(ts + [t], ac) == sent + TokensBits(ts, ac) + TokenBits(t, ac)
  {
    assert (ts + [t])[..|ts|] == ts;
  }

  /** More tokens add their bits at the end. */
  lemma TokensBitsAppend(sent: seq<bool>, ts: seq<AcToken>, more: seq<AcToken>, ac: HuffTable)
    ensures sent + TokensBits(ts + more, ac) == sent + TokensBits(ts, ac) + TokensBits(more, ac)
  {
    TokensBitsConcat(ts, more, ac);
  }

  /** The bits of the DC difference: the code of its category, then its additional bits. */
  function DcBits(diff: int, dc: HuffTable): seq<bool>
  {
    if diff == 0 then HuffCode(dc, 0)
    else HuffCode(dc, Category(diff)) + BitsOf(AdditionalBits(diff), Category(diff))
  }

  /** The bits of a block given the DC value of the previous block of its component. */
  function BlockBits(du: seq<int>, pred: int, dc: HuffTable, ac: HuffTable): seq<bool>
    requires |du| == 64
  {
    DcBits(du[0] - pred, dc) + TokensBits(BlockTokens(du), ac)
  }

  /** BlockBits with the DC difference named. */
  lemma BlockBitsParts(du: seq<int>, pred: int, diff: int, dc: HuffTable, ac: HuffTable)
    requires |du| == 64 && diff == du[0] - pred
    ensures BlockBits(du, pred, dc, ac) == DcBits(diff, dc) + TokensBits(BlockTokens(du), ac)
  {
  }

  /** What a decoder does with a DC category and its additional bits. */
  function DecodeDc(pred: int, category: nat, bits: int): int
  {
    pred + Extend(category, bits)
  }

  /** Decoding the DC category and bits against the predictor restores du[0]. */
  lemma DcRoundTrip(du0: int, pred: int)
    ensures DecodeDc(pred, Category(du0 - pred), if du0 == pred then 0 else AdditionalBits(du0 - pred)) == du0
  {
    ExtendAdditionalBits(du0 - pred);
    CategoryBounds(du0 - pred);
  }

  /** What a decoder rebuilds from a block's DC category, its additional bits and the AC tokens. */
  function DecodeBlock(pred: int, category: nat, bits: int, tokens: seq<AcToken>): seq<int>
  {
    [DecodeDc(pred, category, bits)] + DecodeAc(tokens, 1)
  }

  /** The DC bits are the code of the difference's category, then its additional bits (none for category 0). */
  lemma DcBitsCategory(diff: int, dc: HuffTable)
    ensures DcBits(diff, dc) == HuffCode(dc, Category(diff)) + BitsOf(AdditionalBits(diff), Category(diff))
  {
    hide HuffCode;
    if diff == 0 {
      assert Category(diff) == 0;
    }
  }

  /**
   * A block's bits are the code of the DC category, the additional bits and
   * the codes of the AC tokens; decoding exactly those against the previous
   * DC value gives back all 64 coefficients.
   */
  lemma BlockRoundTrip(du: seq<int>, pred: int, dc: HuffTable, ac: HuffTable)
    requires |du| == 64
    ensures var c := Category(du[0] - pred);
      BlockBits(du, pred, dc, ac) == HuffCode(dc, c) + BitsOf(AdditionalBits(du[0] - pred), c) + TokensBits(BlockTokens(du), ac)
    ensures DecodeBlock(pred, Category(du[0] - pred), AdditionalBits(du[0] - pred), BlockTokens(du)) == du
  {
    hide DcBits, TokensBits, HuffCode, BitsOf, AcTokens, BlockTokens, DecodeAc;
    DcBitsCategory(du[0] - pred, dc);
    DcRoundTrip(du[0], pred);
    AcRoundTrip(du);
    assert [du[0]] + du[1..] == du;
  }

  /** A table whose every entry is a code of at most 16 bits that fits in its length. */
  ghost predicate Sound(t: HuffTable)
  {
    && |t.size| == 256 && |t.code| == 256
    && forall s :: 0 <= s < 256 ==> t.size[s] <= 16 && t.code[s] < Pow2(t.size[s])
  }

  /**
   * The expansion of a specification that satisfies Kraft's inequality is
   * sound: listed symbols get their canonical code, the others keep length 0.
   */
  lemma ExpandSound(bits: seq<uint8>, vals: seq<uint8>)
    requires |bits| == 16 && Total(bits, 16) <= |vals| && CountsKraft(bits, 16) <= Pow2(16)
    ensures Sound(Expand(bits, vals))
  {
    var t := Expand(bits, vals);
    var n := Total(bits, 16);
    forall s | 0 <= s < 256
      ensures t.size[s] <= 16 && t.code[s] < Pow2(t.size[s])
    {
      var v := s as uint8;
      if v in vals[..n] {
        ExpandCovers(bits, vals, v);
      } else {
        ScatterLookup(Zero256(), vals, Sizes(bits, 16), n, v);
        ScatterLookup(Zero256(), vals, Codes(bits), n, v);
      }
    }
  }
}

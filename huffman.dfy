/**
 * Expansion of a canonical Huffman table specification (the BITS counts and
 * HUFFVAL list of a DHT segment) into a symbol -> (code, length) lookup, as
 * Annex C of ITU-T T.81 describes: code lengths (Figure C.1), code values
 * (Figure C.2) and the encoder's ordering by symbol (Figure C.3).
 */
module Huffman {
  import opened Arith
  import opened BitStream

  /** The number of codes of length 1..i in a BITS list. */
  function Total(bits: seq<uint8>, i: nat): (n: nat)
    requires i <= |bits|
    ensures n <= 255 * i
  {
    if i == 0 then 0 else Total(bits, i - 1) + bits[i - 1] as nat
  }

  function Repeat(x: nat, n: nat): (r: seq<nat>)
    ensures |r| == n && forall j :: 0 <= j < n ==> r[j] == x
  {
    seq(n, _ => x)
  }

  /** HUFFSIZE for the lengths 1..i: length L listed bits[L-1] times, shortest first. */
  function Sizes(bits: seq<uint8>, i: nat): (r: seq<nat>)
    requires i <= |bits|
    ensures |r| == Total(bits, i)
  {
    if i == 0 then [] else Sizes(bits, i - 1) + Repeat(i, bits[i - 1] as nat)
  }

  ghost predicate Nondecreasing(s: seq<nat>)
  {
    forall j, k :: 0 <= j <= k < |s| ==> s[j] <= s[k]
  }

  lemma {:induction false} RepeatCount(x: nat, n: nat, L: nat)
    ensures multiset(Repeat(x, n))[L] == if L == x then n else 0
  {
    if n > 0 {
      assert Repeat(x, n) == Repeat(x, n - 1) + [x];
      RepeatCount(x, n - 1, L);
    }
  }

  /**
   * HUFFSIZE lists each length L exactly bits[L-1] times, only lengths 1..i,
   * in nondecreasing order.
   */
  lemma SizesShape(bits: seq<uint8>, i: nat)
    requires i <= |bits|
    ensures forall k :: 0 <= k < |Sizes(bits, i)| ==> 1 <= Sizes(bits, i)[k] <= i
    ensures Nondecreasing(Sizes(bits, i))
    ensures forall L :: 1 <= L <= i ==> multiset(Sizes(bits, i))[L] == bits[L - 1] as nat
  {
    SizesRange(bits, i);
    SizesOrdered(bits, i);
    SizesCounts(bits, i);
  }

  /** Every HUFFSIZE entry is a length between 1 and i. */
  lemma {:induction false} SizesRange(bits: seq<uint8>, i: nat)
    requires i <= |bits|
    ensures forall k :: 0 <= k < |Sizes(bits, i)| ==> 1 <= Sizes(bits, i)[k] <= i
  {
    if i > 0 {
      SizesRange(bits, i - 1);
      var prev: seq<nat>, rep: seq<nat> := Sizes(bits, i - 1), Repeat(i, bits[i - 1] as nat);
      var s := Sizes(bits, i);
      assert s == prev + rep;
      forall k | 0 <= k < |s|
        ensures 1 <= s[k] <= i
      {
        if k < |prev| {
          assert s[k] == prev[k];
        } else {
          assert s[k] == rep[k - |prev|];
        }
      }
    }
  }

  /** HUFFSIZE is in nondecreasing order. */
  lemma {:induction false} SizesOrdered(bits: seq<uint8>, i: nat)
    requires i <= |bits|
    ensures Nondecreasing(Sizes(bits, i))
  {
    if i > 0 {
      SizesOrdered(bits, i - 1);
      SizesRange(bits, i - 1);
      var prev: seq<nat>, rep: seq<nat> := Sizes(bits, i - 1), Repeat(i, bits[i - 1] as nat);
      var s := Sizes(bits, i);
      assert s == prev + rep;
      forall j, k | 0 <= j <= k < |s|
        ensures s[j] <= s[k]
      {
        if k < |prev| {
          assert s[j] == prev[j] && s[k] == prev[k];
        } else if j < |prev| {
          assert s[j] == prev[j] && s[k] == rep[k - |prev|];
        } else {
          assert s[j] == rep[j - |prev|] && s[k] == rep[k - |prev|];
        }
      }
    }
  }

  /** HUFFSIZE lists each length L exactly bits[L-1] times. */
  lemma {:induction false} SizesCounts(bits: seq<uint8>, i: nat)
    requires i <= |bits|
    ensures forall L :: 1 <= L <= i ==> multiset(Sizes(bits, i))[L] == bits[L - 1] as nat
  {
    if i > 0 {
      SizesCounts(bits, i - 1);
      SizesRange(bits, i - 1);
      var prev: seq<int>, rep: seq<int> := Sizes(bits, i - 1), Repeat(i, bits[i - 1] as nat);
      var s: seq<int> := Sizes(bits, i);
      assert s == prev + rep;
      assert multiset(s) == multiset(prev) + multiset(rep);
      hide Sizes, Repeat, Total;
      forall L | 1 <= L <= i
        ensures multiset(s)[L] == bits[L - 1] as nat
      {
        RepeatCount(i, bits[i - 1] as nat, L);
        if L < i {
          assert multiset(prev)[L] == bits[L - 1] as nat;
        } else {
          assert L !in multiset(prev);
        }
      }
    }
  }

  /** The scaled Kraft sum: the sum over j < n of 2^(L - s[j]). */
  function KraftSum(s: seq<nat>, n: nat, L: nat): nat
    requires n <= |s| && forall j :: 0 <= j < n ==> s[j] <= L
  {
    if n == 0 then 0 else KraftSum(s, n - 1, L) + Pow2(L - s[n - 1])
  }

  /**
   * The canonical code of entry k: the Kraft sum of the entries before it at
   * its own length. For lengths in nondecreasing order this is the code
   * Figure C.2 assigns.
   */
  function CanonicalCode(s: seq<nat>, k: nat): nat
    requires k < |s| && Nondecreasing(s)
  {
    KraftSum(s, k, s[k])
  }

  lemma {:induction false} KraftSumScale(s: seq<nat>, n: nat, L: nat, d: nat)
    requires n <= |s| && forall j :: 0 <= j < n ==> s[j] <= L
    ensures KraftSum(s, n, L + d) == KraftSum(s, n, L) * Pow2(d)
  {
    if n > 0 {
      var P := Pow2(d);
      var a, t := KraftSum(s, n - 1, L), Pow2(L - s[n - 1]);
      assert KraftSum(s, n - 1, L + d) == a * P by { KraftSumScale(s, n - 1, L, d); }
      assert Pow2(L + d - s[n - 1]) == t * P by {
        assert L + d - s[n - 1] == L - s[n - 1] + d;
        Pow2Add(L - s[n - 1], d);
      }
      assert KraftSum(s, n, L + d) == a * P + t * P;
      assert KraftSum(s, n, L) == a + t;
      Distribute(a, t, P);
    }
  }

  lemma {:induction false} KraftSumMonotone(s: seq<nat>, m: nat, n: nat, L: nat)
    requires m <= n <= |s| && forall j :: 0 <= j < n ==> s[j] <= L
    ensures KraftSum(s, m, L) <= KraftSum(s, n, L)
  {
    if m < n {
      KraftSumMonotone(s, m, n - 1, L);
    }
  }

  /**
   * The recurrence of Figure C.2: the first code is 0; the next code is one
   * more, shifted left by the growth in length (not shifted within a length).
   */
  lemma CodeRecurrence(s: seq<nat>, k: nat)
    requires Nondecreasing(s) && k + 1 < |s|
    ensures CanonicalCode(s, 0) == 0
    ensures CanonicalCode(s, k + 1) == (CanonicalCode(s, k) + 1) * Pow2(s[k + 1] - s[k])
    ensures s[k + 1] == s[k] ==> CanonicalCode(s, k + 1) == CanonicalCode(s, k) + 1
  {
    var d := s[k + 1] - s[k];
    KraftSumScale(s, k, s[k], d);
    KraftSumScale(s, k + 1, s[k], d);
    assert s[k] + d == s[k + 1];
  }

  /** A later code is at least one more than an earlier code, shifted to the later length. */
  lemma CodeGrowth(s: seq<nat>, j: nat, k: nat)
    requires Nondecreasing(s) && j < k < |s|
    ensures (CanonicalCode(s, j) + 1) * Pow2(s[k] - s[j]) <= CanonicalCode(s, k)
  {
    var d := s[k] - s[j];
    KraftSumMonotone(s, j + 1, k, s[k]);
    KraftSumScale(s, j + 1, s[j], d);
    assert s[j] + d == s[k];
    KraftSumScale(s, j, s[j], d);
  }

  /** Codes strictly increase with the entry index. */
  lemma CodesIncrease(s: seq<nat>, j: nat, k: nat)
    requires Nondecreasing(s) && j < k < |s|
    ensures CanonicalCode(s, j) < CanonicalCode(s, k)
  {
    CodeGrowth(s, j, k);
    MulMonotone(CanonicalCode(s, j) + 1, 1, Pow2(s[k] - s[j]));
  }

  /** Lengths of at most 16 bits whose Kraft sum does not exceed one. */
  ghost predicate KraftComplete(s: seq<nat>)
  {
    (forall j :: 0 <= j < |s| ==> 1 <= s[j] <= 16) && KraftSum(s, |s|, 16) <= Pow2(16)
  }

  /** Under Kraft's inequality every canonical code fits in its length. */
  lemma CodeFits(s: seq<nat>, k: nat)
    requires Nondecreasing(s) && KraftComplete(s) && k < |s|
    ensures CanonicalCode(s, k) < Pow2(s[k])
  {
    hide Pow2;
    assert s[k] <= 16;
    CodeScaled(s, k);
    ScaledBelow(CanonicalCode(s, k), s[k], 16 - s[k]);
  }

  lemma ScaledBelow(c: nat, a: nat, b: nat)
    requires (c + 1) * Pow2(b) <= Pow2(a + b)
    ensures c < Pow2(a)
  {
    Pow2Add(a, b);
    MulCancel(c + 1, Pow2(a), Pow2(b));
  }

  /** The code of entry k and the codes it leaves below it, scaled to 16 bits, fit in 2^16. */
  lemma CodeScaled(s: seq<nat>, k: nat)
    requires Nondecreasing(s) && KraftComplete(s) && k < |s|
    ensures (CanonicalCode(s, k) + 1) * Pow2(16 - s[k]) <= Pow2(16)
  {
    hide Pow2;
    var d := 16 - s[k];
    var c, D := CanonicalCode(s, k), Pow2(d);
    assert KraftSum(s, k + 1, 16) == KraftSum(s, k, 16) + D;
    assert KraftSum(s, |s|, 16) <= Pow2(16);
    hide CanonicalCode, KraftSum, Nondecreasing, KraftComplete;
    assert KraftSum(s, k, 16) == c * D by {
      assert s[k] + d == 16;
      KraftSumScale(s, k, s[k], d);
    }
    KraftSumMonotone(s, k + 1, |s|, 16);
    MulSucc(c, D);
  }

  lemma MulCancel(a: int, b: int, p: int)
    requires p > 0 && a * p <= b * p
    ensures a <= b
  {
    MulMonotoneImplies(p, b + 1, a);
  }

  /**
   * Canonical codes are prefix-free: the first s[j] bits of a later code are
   * never the code of entry j.
   */
  lemma PrefixFree(s: seq<nat>, j: nat, k: nat)
    requires Nondecreasing(s) && KraftComplete(s) && j < k < |s|
    ensures BitsOf(CanonicalCode(s, k), s[k])[..s[j]] != BitsOf(CanonicalCode(s, j), s[j])
  {
    hide Pow2, KraftSum, KraftComplete, CanonicalCode, BitsOf;
    var cj, ck := CanonicalCode(s, j), CanonicalCode(s, k);
    var d := s[k] - s[j];
    CodeFits(s, j);
    CodeFits(s, k);
    assert s[j] + d == s[k];
    SplitBits(ck, s[j], d);
    var top := ck / Pow2(d);
    var hi, lo := BitsOf(top, s[j]), BitsOf(ck % Pow2(d), d);
    assert BitsOf(ck, s[k]) == hi + lo;
    assert (hi + lo)[..s[j]] == hi;
    assert top >= cj + 1 by {
      CodeGrowth(s, j, k);
      QuotientLower(ck, cj + 1, Pow2(d));
    }
    BitsOfInjective(top, cj, s[j]);
  }

  /** The Kraft sum of a BITS list, each count weighted by 2^(16 - length). */
  function CountsKraft(bits: seq<uint8>, i: nat): nat
    requires i <= |bits| <= 16
  {
    if i == 0 then 0 else CountsKraft(bits, i - 1) + bits[i - 1] as nat * Pow2(16 - i)
  }

  lemma {:induction false} KraftSumAppendRepeat(a: seq<nat>, x: nat, m: nat, L: nat)
    requires x <= L && forall j :: 0 <= j < |a| ==> a[j] <= L
    ensures KraftSum(a + Repeat(x, m), |a| + m, L) == KraftSum(a, |a|, L) + m * Pow2(L - x)
  {
    var s := a + Repeat(x, m);
    if m > 0 {
      var s' := a + Repeat(x, m - 1);
      var P := Pow2(L - x);
      assert KraftSum(s, |a| + m - 1, L) == KraftSum(a, |a|, L) + (m - 1) * P by {
        KraftSumAppendRepeat(a, x, m - 1, L);
        assert s[..|a| + m - 1] == s'[..|a| + m - 1];
        KraftSumPrefix(s, s', |a| + m - 1, L);
      }
      assert s[|a| + m - 1] == x;
      MulSucc(m - 1, P);
    } else {
      KraftSumPrefix(s, a, |a|, L);
    }
  }

  /** KraftSum only looks at the first n entries. */
  lemma {:induction false} KraftSumPrefix(s: seq<nat>, t: seq<nat>, n: nat, L: nat)
    requires n <= |s| && n <= |t| && s[..n] == t[..n]
    requires forall j :: 0 <= j < n ==> s[j] <= L
    ensures KraftSum(s, n, L) == KraftSum(t, n, L)
  {
    if n > 0 {
      assert s[n - 1] == s[..n][n - 1] == t[n - 1];
      assert s[..n - 1] == s[..n][..n - 1];
      assert t[..n - 1] == t[..n][..n - 1];
      KraftSumPrefix(s, t, n - 1, L);
    }
  }

  /** The Kraft sum of HUFFSIZE is the weighted sum of the BITS counts. */
  lemma {:induction false} SizesKraft(bits: seq<uint8>, i: nat)
    requires i <= |bits| <= 16
    ensures forall j :: 0 <= j < |Sizes(bits, i)| ==> Sizes(bits, i)[j] <= 16
    ensures KraftSum(Sizes(bits, i), Total(bits, i), 16) == CountsKraft(bits, i)
  {
    SizesShape(bits, i);
    if i > 0 {
      SizesKraft(bits, i - 1);
      KraftSumAppendRepeat(Sizes(bits, i - 1), i, bits[i - 1] as nat, 16);
    }
  }

  /**
   * tjei_huff_get_code_lengths (Figure C.1): writes HUFFSIZE into huffsize,
   * followed by a 0 terminator at index Total(bits, 16).
   */
  method GetCodeLengths(huffsize: array<nat>, bits: seq<uint8>)
    requires |bits| == 16 && Total(bits, 16) < huffsize.Length
    modifies huffsize
    ensures huffsize[..Total(bits, 16) + 1] == Sizes(bits, 16) + [0]
  {
    TotalBound(bits);
    var k := 0;
    var i := 0;
    while i < 16
      invariant 0 <= i <= 16 && k == Total(bits, i)
      invariant huffsize[..k] == Sizes(bits, i)
      invariant i > 0 ==> huffsize[k] == 0
    {
      assert Total(bits, i + 1) == Total(bits, i) + bits[i] as nat;
      var j := 0;
      while j < bits[i] as nat
        invariant 0 <= j <= bits[i] as nat && k == Total(bits, i) + j
        invariant huffsize[..k] == Sizes(bits, i) + Repeat(i + 1, j)
      {
        huffsize[k] := i + 1;
        k := k + 1;
        j := j + 1;
        assert Repeat(i + 1, j) == Repeat(i + 1, j - 1) + [i + 1];
      }
      huffsize[k] := 0;
      i := i + 1;
    }
    assert huffsize[..k + 1] == huffsize[..k] + [huffsize[k]];
  }

  lemma {:induction false} TotalMonotone(bits: seq<uint8>, i: nat, j: nat)
    requires i <= j <= |bits|
    ensures Total(bits, i) <= Total(bits, j)
  {
    if i < j {
      TotalMonotone(bits, i, j - 1);
    }
  }

  lemma TotalBound(bits: seq<uint8>)
    requires |bits| == 16
    ensures forall i :: 0 <= i <= 16 ==> Total(bits, i) <= Total(bits, 16)
  {
    forall i | 0 <= i <= 16
      ensures Total(bits, i) <= Total(bits, 16)
    {
      TotalMonotone(bits, i, 16);
    }
  }

  /** What tjei_huff_get_codes needs of its input: positive nondecreasing lengths, then a 0. */
  ghost predicate SizeList(huffsize: seq<nat>, count: nat)
  {
    && 1 <= count < |huffsize|
    && huffsize[count] == 0
    && (forall k :: 0 <= k < count ==> huffsize[k] >= 1)
    && Nondecreasing(huffsize[..count])
  }

  /**
   * tjei_huff_get_codes (Figure C.2): assigns consecutive codes within a
   * length and shifts the running code left whenever the length grows.
   * Every code written is the canonical code of its entry.
   */
  method GetCodes(codes: array<nat>, huffsize: array<nat>, count: nat)
    requires SizeList(huffsize[..], count) && count <= codes.Length && codes != huffsize
    modifies codes
    ensures forall k :: 0 <= k < count ==> codes[k] == CanonicalCode(huffsize[..count], k)
    ensures forall k :: count <= k < codes.Length ==> codes[k] == old(codes[k])
  {
    ghost var s := huffsize[..count];
    var code := 0;
    var k := 0;
    var sz := huffsize[0];
    while true
      invariant 0 <= k < count && sz == huffsize[k] == s[k]
      invariant forall j :: 0 <= j < k ==> s[j] <= sz
      invariant code == KraftSum(s, k, sz)
      invariant forall j :: 0 <= j < k ==> codes[j] == CanonicalCode(s, j)
      invariant forall j :: k <= j < codes.Length ==> codes[j] == old(codes[j])
      decreases count - k
    {
      codes[k] := code;
      k := k + 1;
      code := code + 1;
      while huffsize[k] == sz
        invariant 0 < k <= count && s[k - 1] == sz >= 1
        invariant forall j :: 0 <= j < k ==> s[j] <= sz
        invariant code == KraftSum(s, k, sz)
        invariant forall j :: 0 <= j < k ==> codes[j] == CanonicalCode(s, j)
        invariant forall j :: k <= j < codes.Length ==> codes[j] == old(codes[j])
        decreases count - k
      {
        codes[k] := code;
        k := k + 1;
        code := code + 1;
      }
      if huffsize[k] == 0 {
        return;
      }
      assert sz < huffsize[k];
      code := code * 2;
      sz := sz + 1;
      KraftSumScale(s, k, sz - 1, 1);
      while huffsize[k] != sz
        invariant sz <= huffsize[k] && forall j :: 0 <= j < k ==> s[j] <= sz
        invariant code == KraftSum(s, k, sz)
        invariant forall j :: 0 <= j < k ==> codes[j] == CanonicalCode(s, j)
        invariant forall j :: k <= j < codes.Length ==> codes[j] == old(codes[j])
        decreases huffsize[k] - sz
      {
        code := code * 2;
        sz := sz + 1;
        KraftSumScale(s, k, sz - 1, 1);
      }
    }
  }

  /** The effect of writing entries[k] at position vals[k] for k = 0 .. n-1, in order. */
  function Scatter(table: seq<nat>, vals: seq<uint8>, entries: seq<nat>, n: nat): (r: seq<nat>)
    requires n <= |vals| && n <= |entries| && |table| == 256
    ensures |r| == 256
  {
    if n == 0 then table else Scatter(table, vals, entries, n - 1)[vals[n - 1] as int := entries[n - 1]]
  }

  /**
   * After the scatter, a symbol listed in vals holds the entry of (the last)
   * one of its positions; a symbol not listed keeps its old entry.
   */
  lemma {:induction false} ScatterLookup(table: seq<nat>, vals: seq<uint8>, entries: seq<nat>, n: nat, v: uint8)
    requires n <= |vals| && n <= |entries| && |table| == 256
    ensures v in vals[..n] ==> exists k :: 0 <= k < n && vals[k] == v && Scatter(table, vals, entries, n)[v] == entries[k]
    ensures v !in vals[..n] ==> Scatter(table, vals, entries, n)[v] == table[v]
  {
    if n > 0 {
      ScatterLookup(table, vals, entries, n - 1, v);
      assert vals[..n] == vals[..n - 1] + [vals[n - 1]];
    }
  }

  /** With distinct symbols, the symbol of entry k receives entry k. */
  lemma ScatterDistinct(table: seq<nat>, vals: seq<uint8>, entries: seq<nat>, n: nat, k: nat)
    requires n <= |vals| && n <= |entries| && |table| == 256 && k < n
    requires forall i, j :: 0 <= i < j < n ==> vals[i] != vals[j]
    ensures Scatter(table, vals, entries, n)[vals[k]] == entries[k]
  {
    ScatterLookup(table, vals, entries, n, vals[k]);
  }

  /**
   * tjei_huff_get_extended (Figure C.3): for each entry k, the code and
   * length of entry k are stored under its symbol huffval[k].
   * The do-while body runs at least once, so count is at least 1; every
   * default specification lists at least 12 values.
   */
  method GetExtended(outSize: array<nat>, outCode: array<nat>, huffval: seq<uint8>,
                     huffsize: array<nat>, huffcode: array<nat>, count: nat)
    requires outSize.Length == 256 && outCode.Length == 256 && outSize != outCode
    requires 1 <= count <= |huffval| && count <= huffsize.Length && count <= huffcode.Length
    requires huffsize != outSize && huffsize != outCode && huffcode != outSize && huffcode != outCode
    modifies outSize, outCode
    ensures outSize[..] == Scatter(old(outSize[..]), huffval, huffsize[..count], count)
    ensures outCode[..] == Scatter(old(outCode[..]), huffval, huffcode[..count], count)
  {
    ghost var size0, code0 := outSize[..], outCode[..];
    var k := 0;
    while true
      invariant 0 <= k < count
      invariant outSize[..] == Scatter(size0, huffval, huffsize[..count], k)
      invariant outCode[..] == Scatter(code0, huffval, huffcode[..count], k)
      decreases count - k
    {
      var val := huffval[k];
      outCode[val] := huffcode[k];
      outSize[val] := huffsize[k];
      assert huffsize[..count][k] == huffsize[k] && huffcode[..count][k] == huffcode[k];
      k := k + 1;
      if k >= count {
        return;
      }
    }
  }

  /** The expanded lookup of one table: length and code by symbol (EHUFSI and EHUFCO). */
  datatype HuffTable = HuffTable(size: seq<nat>, code: seq<nat>)

  function Zero256(): (r: seq<nat>)
    ensures |r| == 256 && forall i :: 0 <= i < 256 ==> r[i] == 0
  {
    seq(256, _ => 0)
  }

  /** The codes of all entries of a BITS list. */
  function Codes(bits: seq<uint8>): (r: seq<nat>)
    requires |bits| == 16
    ensures |r| == Total(bits, 16)
  {
    SizesShape(bits, 16);
    var s := Sizes(bits, 16);
    seq(|s|, k requires 0 <= k < |s| => CanonicalCode(s, k))
  }

  /** The table the encoder state holds for a (BITS, HUFFVAL) specification. */
  function Expand(bits: seq<uint8>, vals: seq<uint8>): (t: HuffTable)
    requires |bits| == 16 && Total(bits, 16) <= |vals|
    ensures |t.size| == 256 && |t.code| == 256
  {
    var n := Total(bits, 16);
    HuffTable(Scatter(Zero256(), vals, Sizes(bits, 16), n), Scatter(Zero256(), vals, Codes(bits), n))
  }

  /** A symbol the table can send: a code of 1..16 bits whose value fits in its length. */
  ghost predicate Covers(t: HuffTable, sym: nat)
  {
    sym < |t.size| && sym < |t.code| && 1 <= t.size[sym] <= 16 && t.code[sym] < Pow2(t.size[sym])
  }

  /**
   * Every symbol listed in a specification that satisfies Kraft's inequality
   * gets a code of 1..16 bits that fits in its length.
   */
  lemma ExpandCovers(bits: seq<uint8>, vals: seq<uint8>, v: uint8)
    requires |bits| == 16 && Total(bits, 16) <= |vals| && CountsKraft(bits, 16) <= Pow2(16)
    requires v in vals[..Total(bits, 16)]
    ensures Covers(Expand(bits, vals), v as nat)
  {
    var s := Sizes(bits, 16);
    SizesComplete(bits);
    var k := LastOf(vals, Total(bits, 16), v);
    ExpandEntry(bits, vals, v);
    CodeFits(s, k);
  }

  /** The entry of a listed symbol comes from the last position that lists it. */
  lemma ExpandEntry(bits: seq<uint8>, vals: seq<uint8>, v: uint8)
    requires |bits| == 16 && Total(bits, 16) <= |vals| && Nondecreasing(Sizes(bits, 16))
    requires v in vals[..Total(bits, 16)]
    ensures var k := LastOf(vals, Total(bits, 16), v);
      Expand(bits, vals).size[v] == Sizes(bits, 16)[k] &&
      Expand(bits, vals).code[v] == CanonicalCode(Sizes(bits, 16), k)
  {
    var n := Total(bits, 16);
    var s := Sizes(bits, 16);
    var k := LastOf(vals, n, v);
    assert Codes(bits)[k] == CanonicalCode(s, k);
    ScatterIsLast(Zero256(), vals, s, n, v);
    ScatterIsLast(Zero256(), vals, Codes(bits), n, v);
  }

  /** A specification that satisfies Kraft's inequality yields sorted lengths of 1..16 bits that do too. */
  lemma SizesComplete(bits: seq<uint8>)
    requires |bits| == 16 && CountsKraft(bits, 16) <= Pow2(16)
    ensures Nondecreasing(Sizes(bits, 16)) && KraftComplete(Sizes(bits, 16))
  {
    SizesShape(bits, 16);
    SizesKraft(bits, 16);
  }

  /** The last position below n that lists v. */
  function LastOf(vals: seq<uint8>, n: nat, v: uint8): (k: nat)
    requires n <= |vals| && v in vals[..n]
    ensures k < n && vals[k] == v
  {
    if vals[n - 1] == v then n - 1
    else
      assert vals[..n] == vals[..n - 1] + [vals[n - 1]];
      LastOf(vals, n - 1, v)
  }

  lemma {:induction false} ScatterIsLast(table: seq<nat>, vals: seq<uint8>, entries: seq<nat>, n: nat, v: uint8)
    requires n <= |vals| && n <= |entries| && |table| == 256 && v in vals[..n]
    ensures Scatter(table, vals, entries, n)[v] == entries[LastOf(vals, n, v)]
  {
    if vals[n - 1] != v {
      assert vals[..n] == vals[..n - 1] + [vals[n - 1]];
      ScatterIsLast(table, vals, entries, n - 1, v);
    }
  }
}

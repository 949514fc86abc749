/**
 * Bits, bytes and JPEG byte stuffing (section F.1.2.3 of ITU-T T.81): the
 * vocabulary in which the entropy-coded part of the stream is specified.
 */
module BitStream {
  import opened Arith

  /** An unsigned 8-bit value (the source's uint8_t). */
  newtype uint8 = x: int | 0 <= x < 256

  /** The low n bits of v, most significant first. */
  function BitsOf(v: int, n: nat): (r: seq<bool>)
    ensures |r| == n
    decreases n
  {
    if n == 0 then [] else BitsOf(v / 2, n - 1) + [v % 2 == 1]
  }

  /** The number a sequence of bits spells, most significant first. */
  function Value(bs: seq<bool>): (r: nat)
    ensures r < Pow2(|bs|)
  {
    if bs == [] then 0 else 2 * Value(bs[..|bs| - 1]) + (if bs[|bs| - 1] then 1 else 0)
  }

  /** n zero bits. */
  function Zeros(n: nat): (r: seq<bool>)
    ensures |r| == n && forall i :: 0 <= i < n ==> !r[i]
  {
    if n == 0 then [] else Zeros(n - 1) + [false]
  }

  /** The low n bits of 0 are n zero bits. */
  lemma {:induction false} ZeroBits(n: nat)
    ensures BitsOf(0, n) == Zeros(n)
  {
    if n > 0 {
      ZeroBits(n - 1);
    }
  }

  /** Reading back the bits of v gives v modulo 2^n. */
  lemma {:induction false} ValueOfBits(v: nat, n: nat)
    ensures Value(BitsOf(v, n)) == v % Pow2(n)
  {
    if n > 0 {
      var bs := BitsOf(v, n);
      var low := v % 2;
      assert bs[..n - 1] == BitsOf(v / 2, n - 1) && bs[n - 1] == (low == 1);
      ValueOfBits(v / 2, n - 1);
      var r := Value(bs[..n - 1]);
      assert Value(bs) == 2 * r + (if bs[n - 1] then 1 else 0);
      assert (if bs[n - 1] then 1 else 0) == low;
      ModTwoSplit(v, n - 1);
    }
  }

  lemma ModTwoSplit(v: nat, m: nat)
    ensures 2 * ((v / 2) % Pow2(m)) + v % 2 == v % Pow2(m + 1)
  {
    var h, b := v / 2, v % 2;
    var q, r := h / Pow2(m), h % Pow2(m);
    assert v == Pow2(m + 1) * q + (2 * r + b) by {
      assert v == 2 * h + b;
      assert h == Pow2(m) * q + r;
      assert 2 * (Pow2(m) * q) == (2 * Pow2(m)) * q;
    }
    DivModUnique(v, Pow2(m + 1), q, 2 * r + b);
  }

  /** The bits of a value are determined by the value: BitsOf inverts Value. */
  lemma {:induction false} BitsOfValue(bs: seq<bool>)
    ensures BitsOf(Value(bs), |bs|) == bs
  {
    if bs != [] {
      var n := |bs|;
      var init := bs[..n - 1];
      var v := Value(bs);
      var b := if bs[n - 1] then 1 else 0;
      DivModUnique(v, 2, Value(init), b);
      BitsOfValue(init);
      assert bs == init + [bs[n - 1]];
    }
  }

  /**
   * Placing b (n bits) below a (m bits) concatenates their bit strings: the
   * fact behind every shift-and-or of the bit accumulator.
   */
  lemma {:induction false} BitsOfConcat(a: int, m: nat, b: nat, n: nat)
    requires b < Pow2(n)
    ensures BitsOf(a * Pow2(n) + b, m + n) == BitsOf(a, m) + BitsOf(b, n)
    decreases n
  {
    if n > 0 {
      var x := a * Pow2(n) + b;
      HalveShifted(a, b, n);
      BitsOfConcat(a, m, b / 2, n - 1);
      assert BitsOf(x, m + n) == BitsOf(a * Pow2(n - 1) + b / 2, m + n - 1) + [b % 2 == 1];
    }
  }

  lemma HalveShifted(a: int, b: nat, n: nat)
    requires n > 0 && b < Pow2(n)
    ensures (a * Pow2(n) + b) / 2 == a * Pow2(n - 1) + b / 2
    ensures (a * Pow2(n) + b) % 2 == b % 2
    ensures b / 2 < Pow2(n - 1)
  {
    var half := a * Pow2(n - 1) + b / 2;
    assert a * Pow2(n) + b == 2 * half + b % 2 by {
      assert a * Pow2(n) == 2 * (a * Pow2(n - 1));
    }
    DivModUnique(a * Pow2(n) + b, 2, half, b % 2);
  }

  /** The top bits and the low bits of a value of m + n bits. */
  lemma SplitBits(v: nat, m: nat, n: nat)
    requires v < Pow2(m + n)
    ensures v / Pow2(n) < Pow2(m)
    ensures BitsOf(v, m + n) == BitsOf(v / Pow2(n), m) + BitsOf(v % Pow2(n), n)
  {
    var P := Pow2(n);
    var q, r := v / P, v % P;
    assert q < Pow2(m) by {
      Pow2Add(m, n);
      QuotientBound(v, P, Pow2(m));
    }
    DivMod(v, P);
    BitsOfConcat(q, m, r, n);
  }

  /** The bits of a byte string, each byte most significant bit first. */
  function BytesBits(bytes: seq<uint8>): (r: seq<bool>)
    ensures |r| == 8 * |bytes|
  {
    if bytes == [] then [] else BitsOf(bytes[0] as nat, 8) + BytesBits(bytes[1..])
  }

  lemma {:induction false} BytesBitsConcat(a: seq<uint8>, b: seq<uint8>)
    ensures BytesBits(a + b) == BytesBits(a) + BytesBits(b)
  {
    if a == [] {
      assert a + b == b;
    } else {
      var head := BitsOf(a[0] as nat, 8);
      assert (a + b)[0] == a[0] && (a + b)[1..] == a[1..] + b;
      BytesBitsConcat(a[1..], b);
      assert BytesBits(a + b) == head + (BytesBits(a[1..]) + BytesBits(b));
      assert head + (BytesBits(a[1..]) + BytesBits(b)) == (head + BytesBits(a[1..])) + BytesBits(b);
    }
  }

  /** The bytes that a bit string of whole bytes spells. */
  function PackBytes(bits: seq<bool>): (r: seq<uint8>)
    requires |bits| % 8 == 0
    ensures 8 * |r| == |bits|
  {
    if bits == [] then [] else [Value(bits[..8]) as uint8] + PackBytes(bits[8..])
  }

  /** PackBytes is the inverse of BytesBits, in both directions. */
  lemma {:induction false} PackBytesBits(bytes: seq<uint8>)
    ensures PackBytes(BytesBits(bytes)) == bytes
  {
    if bytes != [] {
      var b, rest := bytes[0], bytes[1..];
      var head, tail := BitsOf(b as int, 8), BytesBits(rest);
      assert BytesBits(bytes) == head + tail;
      assert (head + tail)[..8] == head && (head + tail)[8..] == tail;
      ByteValue(b);
      PackBytesBits(rest);
      assert bytes == [b] + rest;
    }
  }

  /** Different values below 2^n have different n-bit spellings. */
  lemma BitsOfInjective(a: nat, b: nat, n: nat)
    requires a < Pow2(n) && b < Pow2(n) && a != b
    ensures BitsOf(a, n) != BitsOf(b, n)
  {
    ValueOfBits(a, n);
    ValueOfBits(b, n);
    DivModUnique(a, Pow2(n), 0, a);
    DivModUnique(b, Pow2(n), 0, b);
  }

  /** The eight bits of a byte spell the byte. */
  lemma ByteValue(b: uint8)
    ensures Value(BitsOf(b as int, 8)) == b as int
  {
    ValueOfBits(b as int, 8);
    assert Pow2(8) == 256 by { Pow2Values(); }
    DivModUnique(b as int, 256, 0, b as int);
  }

  lemma OneByteBits(b: uint8)
    ensures BytesBits([b]) == BitsOf(b as int, 8)
  {
    assert [b][1..] == [];
  }

  lemma {:induction false} BitsPackBytes(bits: seq<bool>)
    requires |bits| % 8 == 0
    ensures BytesBits(PackBytes(bits)) == bits
  {
    if bits != [] {
      var head, tail := bits[..8], bits[8..];
      var b := Value(head) as uint8;
      assert PackBytes(bits) == [b] + PackBytes(tail);
      assert ([b] + PackBytes(tail))[1..] == PackBytes(tail);
      assert BytesBits(PackBytes(bits)) == BitsOf(b as int, 8) + BytesBits(PackBytes(tail));
      BitsOfValue(head);
      BitsPackBytes(tail);
      assert bits == head + tail;
    }
  }

  /** Eight more bits pack into one more byte, the byte they spell. */
  lemma PackBytesSnoc(bits: seq<bool>, b: nat)
    requires |bits| % 8 == 0 && b < 256
    ensures PackBytes(bits + BitsOf(b, 8)) == PackBytes(bits) + [b as uint8]
  {
    var bytes := PackBytes(bits) + [b as uint8];
    BitsPackBytes(bits);
    OneByteBits(b as uint8);
    BytesBitsConcat(PackBytes(bits), [b as uint8]);
    PackBytesBits(bytes);
  }

  /** Byte stuffing: a 0x00 is inserted after every 0xFF byte. */
  function Stuff(bytes: seq<uint8>): (r: seq<uint8>)
    ensures |r| >= |bytes|
  {
    if bytes == [] then []
    else (if bytes[0] == 0xFF then [0xFF, 0x00] else [bytes[0]]) + Stuff(bytes[1..])
  }

  lemma StuffOne(b: uint8)
    ensures Stuff([b]) == if b == 0xFF then [0xFF, 0x00] else [b]
  {
    assert [b][1..] == [];
  }

  /** What a decoder does with entropy-coded data: drop the 0x00 after each 0xFF. */
  function Unstuff(data: seq<uint8>): seq<uint8>
  {
    if data == [] then []
    else if data[0] == 0xFF && |data| >= 2 && data[1] == 0x00 then [0xFF] + Unstuff(data[2..])
    else [data[0]] + Unstuff(data[1..])
  }

  lemma {:induction false} StuffConcat(a: seq<uint8>, b: seq<uint8>)
    ensures Stuff(a + b) == Stuff(a) + Stuff(b)
  {
    if a == [] {
      assert a + b == b;
    } else {
      assert (a + b)[1..] == a[1..] + b;
      StuffConcat(a[1..], b);
    }
  }

  /** Unstuffing undoes stuffing: no byte other than the 0x00 fillers is inserted. */
  lemma {:induction false} UnstuffStuff(bytes: seq<uint8>)
    ensures Unstuff(Stuff(bytes)) == bytes
  {
    if bytes != [] {
      UnstuffStuff(bytes[1..]);
      var s := Stuff(bytes);
      if bytes[0] == 0xFF {
        assert s[2..] == Stuff(bytes[1..]);
      } else {
        assert s[1..] == Stuff(bytes[1..]);
      }
      assert bytes == [bytes[0]] + bytes[1..];
    }
  }

  /** In stuffed data every 0xFF byte is followed by a 0x00 byte, so no marker can appear. */
  lemma {:induction false} StuffedFFThenZero(bytes: seq<uint8>)
    ensures forall i :: 0 <= i < |Stuff(bytes)| && Stuff(bytes)[i] == 0xFF ==>
              i + 1 < |Stuff(bytes)| && Stuff(bytes)[i + 1] == 0x00
  {
    if bytes != [] {
      StuffedFFThenZero(bytes[1..]);
      var head: seq<uint8> := if bytes[0] == 0xFF then [0xFF, 0x00] else [bytes[0]];
      var s := Stuff(bytes);
      assert s == head + Stuff(bytes[1..]);
      forall i | 0 <= i < |s| && s[i] == 0xFF
        ensures i + 1 < |s| && s[i + 1] == 0x00
      {
        if i >= |head| {
          assert s[i] == Stuff(bytes[1..])[i - |head|];
        }
      }
    }
  }
}

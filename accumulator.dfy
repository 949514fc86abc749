/**
 * The 32-bit accumulator of tjei_write_bits: the pending bits sit at the top
 * of the word, `location` of them, most significant first, with zeros below.
 */
module Accumulator {
  import opened Arith
  import opened BitStream

  /** A 32-bit word holding `location` pending bits at its top and zeros below them. */
  ghost predicate Holds(bitbuffer: nat, location: nat)
  {
    location <= 32 && bitbuffer < 0x1_0000_0000 && bitbuffer % Pow2(32 - location) == 0
  }

  /** The pending bits of the accumulator, oldest first. */
  function Pending(bitbuffer: nat, location: nat): (r: seq<bool>)
    requires location <= 32
    ensures |r| == location
  {
    BitsOf(bitbuffer / Pow2(32 - location), location)
  }

  /**
   * `*bitbuffer |= (uint32_t)(bits << (32 - nloc))`: the new bits are placed
   * right below the pending ones. They occupy only zero positions of the
   * word (InsertBits), so the bitwise or is an addition.
   */
  function Insert(bitbuffer: nat, location: nat, numBits: nat, bits: nat): nat
    requires location + numBits <= 32
  {
    bitbuffer + (bits * Pow2(32 - (location + numBits))) % 0x1_0000_0000
  }

  /** `(uint8_t)(*bitbuffer >> 24)`: the top byte of the word. */
  function TopByte(bitbuffer: nat): nat
  {
    bitbuffer / 0x100_0000
  }

  /** `*bitbuffer <<= 8` on a 32-bit word. */
  function ShiftByte(bitbuffer: nat): nat
  {
    (bitbuffer * 256) % 0x1_0000_0000
  }

  /** Inserting n bits appends them to the pending bits. */
  lemma InsertBits(bitbuffer: nat, location: nat, n: nat, bits: nat)
    requires Holds(bitbuffer, location) && location + n <= 32 && bits < Pow2(n)
    ensures Holds(Insert(bitbuffer, location, n, bits), location + n)
    ensures Pending(Insert(bitbuffer, location, n, bits), location + n) == Pending(bitbuffer, location) + BitsOf(bits, n)
  {
    InsertValue(bitbuffer, location, n, bits);
    PendingAppend(Insert(bitbuffer, location, n, bits), bitbuffer, location, n, bits);
  }

  /** A word whose quotient by the empty low positions is the old pending bits followed by n more. */
  lemma PendingAppend(x: nat, bitbuffer: nat, location: nat, n: nat, bits: nat)
    requires location + n <= 32 && bits < Pow2(n)
    requires x / Pow2(32 - (location + n)) == (bitbuffer / Pow2(32 - location)) * Pow2(n) + bits
    ensures Pending(x, location + n) == Pending(bitbuffer, location) + BitsOf(bits, n)
  {
    DivMod(bitbuffer, Pow2(32 - location));
    var p: nat := bitbuffer / Pow2(32 - location);
    ConcatOf(x / Pow2(32 - (location + n)), p, location, bits, n);
  }

  lemma ConcatOf(v: int, p: nat, m: nat, bits: nat, n: nat)
    requires bits < Pow2(n) && v == p * Pow2(n) + bits
    ensures BitsOf(v, m + n) == BitsOf(p, m) + BitsOf(bits, n)
  {
    BitsOfConcat(p, m, bits, n);
  }

  /**
   * The arithmetic behind InsertBits: the word is the pending bits followed
   * by the new ones, shifted up to the top of the word.
   */
  lemma InsertValue(bitbuffer: nat, location: nat, n: nat, bits: nat)
    requires Holds(bitbuffer, location) && location + n <= 32 && bits < Pow2(n)
    ensures Insert(bitbuffer, location, n, bits) < 0x1_0000_0000
    ensures Insert(bitbuffer, location, n, bits) / Pow2(32 - (location + n)) == (bitbuffer / Pow2(32 - location)) * Pow2(n) + bits
    ensures Insert(bitbuffer, location, n, bits) % Pow2(32 - (location + n)) == 0
  {
    var e, s := 32 - location, 32 - (location + n);
    var L, N, S, E := Pow2(location), Pow2(n), Pow2(s), Pow2(e);
    DivMod(bitbuffer, E);
    var p: nat := bitbuffer / E;
    Pow2Values();
    assert E == N * S by { Pow2Add(n, s); }
    assert Pow2(32) == L * E by { Pow2Add(location, e); }
    assert bitbuffer == p * E;
    assert p < L by { QuotientBound(bitbuffer, E, L); }
    PlaceBelow(bitbuffer, p, bits, L, N, S, 0x1_0000_0000);
  }

  /** Taking the top byte out of a word with at least 8 pending bits. */
  lemma PopByte(bitbuffer: nat, location: nat)
    requires Holds(bitbuffer, location) && location >= 8
    ensures TopByte(bitbuffer) < 256
    ensures Holds(ShiftByte(bitbuffer), location - 8)
    ensures BitsOf(TopByte(bitbuffer), 8) + Pending(ShiftByte(bitbuffer), location - 8) == Pending(bitbuffer, location)
  {
    hide BitsOf;
    var e, m := 32 - location, location - 8;
    var p := Aligned(bitbuffer, location);
    TopOf(bitbuffer, p, e, m);
    assert 8 + m == location;
    SplitBits(p, 8, m);
    ShiftedWord(bitbuffer, p, e, m);
    assert 32 - (location - 8) == e + 8;
  }

  /** A word holding `location` pending bits is those bits shifted to the top. */
  lemma Aligned(bitbuffer: nat, location: nat) returns (p: nat)
    requires Holds(bitbuffer, location)
    ensures p == bitbuffer / Pow2(32 - location) && bitbuffer == p * Pow2(32 - location) && p < Pow2(location)
  {
    var e := 32 - location;
    DivMod(bitbuffer, Pow2(e));
    p := bitbuffer / Pow2(e);
    Pow2Values();
    Pow2Add(location, e);
    QuotientBound(bitbuffer, Pow2(e), Pow2(location));
  }

  /** The top byte of a word is its pending bits without the lower `m` of them. */
  lemma TopOf(bitbuffer: nat, p: nat, e: nat, m: nat)
    requires bitbuffer == p * Pow2(e) && e + m == 24
    ensures TopByte(bitbuffer) == p / Pow2(m)
  {
    Pow2Values();
    ShiftedDiv(p, e, m);
  }

  /** Shifting a word left by a byte keeps the bits below the top byte, moved up 8 places. */
  lemma ShiftedWord(bitbuffer: nat, p: nat, e: nat, m: nat)
    requires bitbuffer == p * Pow2(e) && e + 8 + m == 32
    ensures ShiftByte(bitbuffer) < 0x1_0000_0000
    ensures ShiftByte(bitbuffer) / Pow2(e + 8) == p % Pow2(m) && ShiftByte(bitbuffer) % Pow2(e + 8) == 0
  {
    var shifted, P, q := ShiftByte(bitbuffer), Pow2(e + 8), p % Pow2(m);
    assert shifted == q * P by {
      Pow2Values();
      assert bitbuffer * 256 == p * P by {
        Pow2Add(e, 8);
        MulAssoc(p, Pow2(e), 256);
      }
      assert m + (e + 8) == 32;
      ShiftedMod(p, e + 8, m);
    }
    assert shifted == P * q + 0;
    DivModUnique(shifted, P, q, 0);
  }

  /**
   * The output `out` is `prefix` followed by the stuffed bytes of the whole
   * bytes `done`, and the accumulator holds `location` more bits.
   */
  ghost predicate Draining(out: seq<uint8>, prefix: seq<uint8>, done: seq<bool>, bitbuffer: nat, location: nat)
  {
    Holds(bitbuffer, location) && |done| % 8 == 0 && out == prefix + Stuff(PackBytes(done))
  }

  /** Writing the top byte of the accumulator, stuffed, moves it from the pending bits to the output. */
  lemma DrainingPop(out: seq<uint8>, prefix: seq<uint8>, done: seq<bool>, bitbuffer: nat, location: nat)
    requires Draining(out, prefix, done, bitbuffer, location) && location >= 8
    ensures TopByte(bitbuffer) < 256
    ensures Draining(out + Stuff([TopByte(bitbuffer) as uint8]), prefix, done + BitsOf(TopByte(bitbuffer), 8), ShiftByte(bitbuffer), location - 8)
    ensures (done + BitsOf(TopByte(bitbuffer), 8)) + Pending(ShiftByte(bitbuffer), location - 8) == done + Pending(bitbuffer, location)
  {
    var c := TopByte(bitbuffer);
    PopByte(bitbuffer, location);
    Reassociate(done, BitsOf(c, 8), Pending(ShiftByte(bitbuffer), location - 8));
    StuffedSnoc(done, c);
    Reassociate(prefix, Stuff(PackBytes(done)), Stuff([c as uint8]));
  }

  /** A sequence split into a front and the last |back| elements. */
  lemma SplitLast<T>(front: seq<T>, back: seq<T>, all: seq<T>)
    requires front + back == all
    ensures |back| <= |all| && all[..|all| - |back|] == front && all[|all| - |back|..] == back
  {
  }

  lemma Reassociate<T>(a: seq<T>, b: seq<T>, c: seq<T>)
    ensures (a + b) + c == a + (b + c)
  {
  }

  /** Eight more bits put one more byte through the stuffing: the byte, and 0x00 after a 0xFF. */
  lemma StuffedSnoc(done: seq<bool>, c: nat)
    requires |done| % 8 == 0 && c < 256
    ensures |done + BitsOf(c, 8)| % 8 == 0
    ensures Stuff(PackBytes(done + BitsOf(c, 8))) == Stuff(PackBytes(done)) + Stuff([c as uint8])
  {
    var b := c as uint8;
    var p := PackBytes(done);
    PackBytesSnoc(done, c);
    StuffConcat(p, [b]);
  }
}

/**
 * The variable-length integer of JPEG's entropy coding: a coefficient or DC
 * difference is sent as its size category (table F.1 of ITU-T T.81) followed
 * by that many additional bits (section F.1.2.1).
 */
module Vli {
  import opened Arith

  /** The number of binary digits of n (0 for 0). */
  function BitLength(n: nat): nat
  {
    if n == 0 then 0 else 1 + BitLength(n / 2)
  }

  function Abs(v: int): nat
  {
    if v < 0 then -v else v
  }

  /** The size category SSSS of a value. */
  function Category(v: int): nat
  {
    BitLength(Abs(v))
  }

  /**
   * The additional bits that follow the category: the value itself when
   * positive, and value - 1 in `Category(v)` bits (the ones' complement of
   * the magnitude) when negative.
   */
  function AdditionalBits(v: int): int
  {
    if v >= 0 then v else v + Pow2(Category(v)) - 1
  }

  /** A decoder's EXTEND procedure (Figure F.12): the value that category c and bits stand for. */
  function Extend(c: nat, bits: int): int
  {
    if c == 0 then 0
    else if bits < Pow2(c - 1) then bits - Pow2(c) + 1
    else bits
  }

  /** BitLength(n) is the c with 2^(c-1) <= n < 2^c. */
  lemma {:induction false} BitLengthBounds(n: nat)
    ensures n == 0 ==> BitLength(n) == 0
    ensures n > 0 ==> BitLength(n) >= 1 && Pow2(BitLength(n) - 1) <= n < Pow2(BitLength(n))
  {
    if n > 1 {
      var h := n / 2;
      BitLengthBounds(h);
      var c := BitLength(h);
      assert BitLength(n) == c + 1;
      assert Pow2(c + 1) == 2 * Pow2(c);
      assert Pow2(c) == 2 * Pow2(c - 1);
      assert 2 * h <= n <= 2 * h + 1;
    } else if n == 1 {
      assert BitLength(1) == 1 + BitLength(0);
    }
  }

  /** The category of a nonzero value is the c with 2^(c-1) <= |v| < 2^c; zero has category 0. */
  lemma CategoryBounds(v: int)
    ensures v == 0 <==> Category(v) == 0
    ensures v != 0 ==> Pow2(Category(v) - 1) <= Abs(v) < Pow2(Category(v))
  {
    BitLengthBounds(Abs(v));
  }

  /**
   * The additional bits fit in Category(v) bits, and their top bit tells the
   * sign: 1 for a positive value, 0 for a negative one.
   */
  lemma AdditionalBitsRange(v: int)
    ensures 0 <= AdditionalBits(v) < Pow2(Category(v))
    ensures v > 0 ==> AdditionalBits(v) >= Pow2(Category(v) - 1)
    ensures v < 0 ==> AdditionalBits(v) < Pow2(Category(v) - 1)
  {
    CategoryBounds(v);
    if v != 0 {
      assert Pow2(Category(v)) == 2 * Pow2(Category(v) - 1);
    }
  }

  /** Decoding the category and the additional bits gives the value back. */
  lemma ExtendAdditionalBits(v: int)
    ensures Extend(Category(v), AdditionalBits(v)) == v
  {
    AdditionalBitsRange(v);
    CategoryBounds(v);
  }

  /**
   * tjei_calculate_variable_length_int: the size is counted by halving |value|
   * until it reaches zero; the bits are value (or value - 1 when negative)
   * masked to that size.
   */
  method CalculateVariableLengthInt(value: int) returns (bits: int, size: nat)
    ensures value != 0 ==> size == Category(value) && bits == AdditionalBits(value)
    ensures value == 0 ==> size == 1 && bits == 0
    ensures 0 <= bits < Pow2(size)
  {
    var absVal: nat := Abs(value);
    var v := value;
    if value < 0 {
      v := value - 1;
    }
    size := 1;
    absVal := absVal / 2;
    while absVal != 0
      invariant size >= 1
      invariant value != 0 ==> Category(value) == size + BitLength(absVal)
      invariant value == 0 ==> absVal == 0 && size == 1
      decreases absVal
    {
      size := size + 1;
      absVal := absVal / 2;
    }
    bits := v % Pow2(size);
    CategoryBounds(value);
    if value < 0 {
      DivModUnique(v, Pow2(size), -1, v + Pow2(size));
    } else if value > 0 {
      DivModUnique(v, Pow2(size), 0, v);
    } else {
      assert Pow2(size) == 2;
    }
  }

  /** A magnitude below 2^n needs at most n bits. */
  lemma CategoryAtMost(v: int, n: nat)
    requires Abs(v) < Pow2(n)
    ensures Category(v) <= n
  {
    CategoryBounds(v);
    if Category(v) > n {
      Pow2Monotone(n, Category(v) - 1);
    }
  }
}

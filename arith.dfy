/** Powers of two and the division facts the bit-level models lean on. */
module Arith {

  function Pow2(n: nat): (r: nat)
    ensures r >= 1
  {
    if n == 0 then 1 else 2 * Pow2(n - 1)
  }

  /** The powers of two that name the widths of bytes, halfwords and words. */
  lemma Pow2Values()
    ensures Pow2(8) == 0x100 && Pow2(16) == 0x1_0000 && Pow2(24) == 0x100_0000 && Pow2(32) == 0x1_0000_0000
  {
    assert Pow2(4) == 16;
    assert Pow2(8) == 0x100 by { Pow2Add(4, 4); }
    assert Pow2(16) == 0x1_0000 by { Pow2Add(8, 8); }
    assert Pow2(24) == 0x100_0000 by { Pow2Add(16, 8); }
    assert Pow2(32) == 0x1_0000_0000 by { Pow2Add(16, 16); }
  }

  lemma {:induction false} Pow2Add(a: nat, b: nat)
    ensures Pow2(a + b) == Pow2(a) * Pow2(b)
  {
    if b > 0 {
      Pow2Add(a, b - 1);
      calc {
        Pow2(a + b);
        2 * Pow2(a + b - 1);
        2 * (Pow2(a) * Pow2(b - 1));
        Pow2(a) * (2 * Pow2(b - 1));
        Pow2(a) * Pow2(b);
      }
    }
  }

  lemma {:induction false} Pow2Monotone(a: nat, b: nat)
    requires a <= b
    ensures Pow2(a) <= Pow2(b)
  {
    if a < b {
      Pow2Monotone(a, b - 1);
    }
  }

  /** Multiplying by a positive number keeps the sign and grows the magnitude. */
  lemma MulSign(d: int, k: int)
    requires d > 0
    ensures k >= 1 ==> d * k >= d
    ensures k <= -1 ==> d * k <= -d
    ensures k == 0 ==> d * k == 0
  {
  }

  lemma MulMonotone(a: int, b: int, c: int)
    requires a >= 0 && b <= c
    ensures a * b <= a * c
  {
    assert a * c - a * b == a * (c - b);
  }

  lemma MulMonotoneImplies(a: int, b: int, c: int)
    requires a >= 0
    ensures b <= c ==> a * b <= a * c
  {
    if b <= c {
      MulMonotone(a, b, c);
    }
  }

  lemma MulSucc(a: int, b: int)
    ensures a * b + b == (a + 1) * b
  {
  }

  lemma MulComm(a: int, b: int)
    ensures a * b == b * a
  {
  }

  lemma MulAssoc(a: int, b: int, c: int)
    ensures (a * b) * c == a * (b * c)
  {
  }

  lemma Distribute(a: int, b: int, c: int)
    ensures (a + b) * c == a * c + b * c
  {
  }

  lemma MulStrict(a: int, b: int, s: int)
    requires a < b && s > 0
    ensures a * s < b * s
  {
    MulMonotone(s, a, b - 1);
    MulSucc(b - 1, s);
  }

  /** Placing b (below n) under a (below l) gives a value below l * n, scaled exactly by s. */
  lemma Place(a: int, b: int, l: int, n: int, s: int)
    requires 0 <= a < l && 0 <= b < n && s > 0
    ensures 0 <= a * n + b < l * n
    ensures (a * n + b) * s == a * (n * s) + b * s
    ensures 0 <= b * s < n * s
    ensures (a * n + b) * s < l * (n * s)
  {
    MulStrict(a, l, n);
    MulMonotone(n, a + 1, l);
    MulSucc(a, n);
    MulStrict(b, n, s);
    MulMonotone(s, 0, b);
    assert (a * n + b) * s == a * (n * s) + b * s by {
      assert (a * n) * s == a * (n * s);
    }
    MulStrict(a * n + b, l * n, s);
    assert (l * n) * s == l * (n * s);
  }

  /**
   * A word w holding p above N * S positions, with b (below N) placed above
   * the lowest S positions: the sum stays below T = L * N * S, and the
   * quotient by S is p and b side by side.
   */
  lemma PlaceBelow(w: int, p: int, b: int, L: int, N: int, S: int, T: int)
    requires 0 <= p < L && 0 <= b < N && S > 0 && T == L * (N * S) && w == p * (N * S)
    ensures w + (b * S) % T == (p * N + b) * S
    ensures 0 <= (p * N + b) * S < T
    ensures ((p * N + b) * S) / S == p * N + b && ((p * N + b) * S) % S == 0
  {
    Place(p, b, L, N, S);
    MulMonotone(N * S, 1, L);
    DivModUnique(b * S, T, 0, b * S);
    MulComm(p * N + b, S);
    DivModUnique((p * N + b) * S, S, p * N + b, 0);
  }

  lemma DivMod(v: int, d: int)
    requires d > 0
    ensures v == (v / d) * d + v % d && 0 <= v % d < d
    ensures v >= 0 ==> v / d >= 0
  {
  }

  /** A value below m * d has a quotient by d below m. */
  lemma QuotientBound(v: nat, d: nat, m: nat)
    requires d > 0 && v < m * d
    ensures v / d < m
  {
    MulMonotoneImplies(d, m, v / d);
  }

  /** A multiple of d at most x gives a lower bound on x / d. */
  lemma QuotientLower(x: int, q: int, d: int)
    requires d > 0 && q * d <= x
    ensures q <= x / d
  {
    DivMod(x, d);
    MulMonotoneImplies(d, q, x / d + 1);
    MulSucc(x / d, d);
  }

  /** A quotient and remainder that decompose x are the quotient and remainder. */
  lemma DivModUnique(x: int, d: int, q: int, r: int)
    requires d > 0 && 0 <= r < d && x == d * q + r
    ensures x / d == q && x % d == r
  {
    var q0, r0 := x / d, x % d;
    assert d * (q0 - q) == r - r0 by {
      assert d * (q0 - q) == d * q0 - d * q;
    }
    MulSign(d, q0 - q);
  }

  /** Division by a product is division by each factor in turn. */
  lemma DivDiv(x: nat, m: nat, n: nat)
    requires m > 0 && n > 0
    ensures x / (m * n) == (x / m) / n
  {
    var a, s := x / m, x % m;
    var q, r := a / n, a % n;
    assert x == m * a + s;
    assert a == n * q + r;
    assert m * a == (m * n) * q + m * r by {
      assert m * (n * q + r) == (m * n) * q + m * r;
    }
    MulMonotone(m, r, n - 1);
    assert m * (n - 1) == m * n - m;
    DivModUnique(x, m * n, q, m * r + s);
  }

  /** Shifting left by p and then right by p + q is shifting right by q. */
  lemma ShiftedDiv(a: nat, p: nat, q: nat)
    ensures (a * Pow2(p)) / Pow2(p + q) == a / Pow2(q)
  {
    Pow2Add(p, q);
    DivDiv(a * Pow2(p), Pow2(p), Pow2(q));
    DivModUnique(a * Pow2(p), Pow2(p), a, 0);
  }

  /** Dropping the bits above position n + p of a value shifted left by p. */
  lemma ShiftedMod(a: nat, p: nat, n: nat)
    ensures (a * Pow2(p)) % Pow2(n + p) == (a % Pow2(n)) * Pow2(p)
  {
    var P, N, NP := Pow2(p), Pow2(n), Pow2(n + p);
    assert NP == N * P by { Pow2Add(n, p); }
    var q, r := a / N, a % N;
    assert a * P == NP * q + r * P by {
      assert a == N * q + r;
      Distribute(N * q, r, P);
      MulAssoc(N, q, P);
      MulComm(q, P);
      MulAssoc(N, P, q);
    }
    assert 0 <= r * P < NP by {
      MulMonotone(P, r, N - 1);
      assert P * (N - 1) == N * P - P;
    }
    DivModUnique(a * P, NP, q, r * P);
  }
}

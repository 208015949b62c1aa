/** Arithmetic the drivers do on machine words, on natural numbers. */
module Bits {

  type byte = x: int | 0 <= x < 256

  // --- Bitwise AND ---

  function BitAnd(a: nat, b: nat): (r: nat)
    ensures r <= a && r <= b
  {
    if a == 0 || b == 0 then 0 else a % 2 * (b % 2) + 2 * BitAnd(a / 2, b / 2)
  }

  function AllOnes(bits: nat): nat {
    if bits == 0 then 0 else 1 + 2 * AllOnes(bits - 1)
  }

  /** A block of ones is neutral on either side for values that fit in it. */
  lemma {:induction false} AndWithOnes(a: nat, bits: nat)
    requires a <= AllOnes(bits)
    ensures BitAnd(a, AllOnes(bits)) == a
    ensures BitAnd(AllOnes(bits), a) == a
  {
    if a == 0 {
    } else {
      AndWithOnes(a / 2, bits - 1);
      assert AllOnes(bits) / 2 == AllOnes(bits - 1);
    }
  }

  // --- Powers of two ---

  function Pow2(n: nat): (r: nat)
    ensures r >= 1
  {
    if n == 0 then 1 else 2 * Pow2(n - 1)
  }

  /** ilog2: the exponent of the largest power of two not above n. */
  function FloorLog2(n: nat): nat {
    if n <= 1 then 0 else FloorLog2(n / 2) + 1
  }

  lemma {:induction false} FloorLog2Bounds(n: nat)
    requires n >= 1
    ensures Pow2(FloorLog2(n)) <= n < 2 * Pow2(FloorLog2(n))
  {
    if n <= 1 {
    } else {
      FloorLog2Bounds(n / 2);
    }
  }

  /** order_base_2: the exponent of the smallest power of two not below n. */
  function CeilLog2(n: nat): nat {
    if n <= 1 then 0 else FloorLog2(n - 1) + 1
  }

  lemma {:induction false} CeilLog2Bounds(n: nat)
    requires n >= 1
    ensures n <= Pow2(CeilLog2(n)) && (CeilLog2(n) > 0 ==> Pow2(CeilLog2(n) - 1) < n)
  {
    if n > 1 {
      FloorLog2Bounds(n - 1);
    }
  }

  lemma {:induction false} Pow2Monotone(a: nat, b: nat)
    requires a <= b
    ensures Pow2(a) <= Pow2(b)
    ensures a < b ==> Pow2(a) < Pow2(b)
    decreases b
  {
    if a == b {
    } else {
      Pow2Monotone(a, b - 1);
    }
  }

  lemma {:induction false} Pow2Adds(a: nat, b: nat)
    ensures Pow2(a + b) == Pow2(a) * Pow2(b)
  {
    if a == 0 {
    } else {
      Pow2Adds(a - 1, b);
    }
  }

  /** n >> k. */
  function Shr(n: nat, k: nat): (r: nat)
    ensures r <= n
  {
    if k == 0 then n else Shr(n, k - 1) / 2
  }

  lemma {:induction false} ShrPow2(a: nat, k: nat)
    requires k <= a
    ensures Shr(Pow2(a), k) == Pow2(a - k)
  {
    if k == 0 {
    } else {
      ShrPow2(a, k - 1);
    }
  }

  lemma {:induction false} ShrMonotone(n: nat, a: nat, b: nat)
    requires a <= b
    ensures Shr(n, b) <= Shr(n, a)
    decreases b
  {
    if a == b {
    } else {
      ShrMonotone(n, a, b - 1);
    }
  }

  ghost predicate IsPow2(n: nat) {
    exists e: nat :: Pow2(e) == n
  }

  lemma {:induction false} FloorLog2Exact(n: nat)
    requires n >= 1
    ensures Pow2(FloorLog2(n)) == n <==> IsPow2(n)
  {
    FloorLog2Bounds(n);
    if e: nat :| Pow2(e) == n {
      if e < FloorLog2(n) {
        Pow2Monotone(e, FloorLog2(n));
      } else if e > FloorLog2(n) {
        Pow2Monotone(FloorLog2(n) + 1, e);
      }
    }
  }

  lemma {:induction false} CeilLog2Exact(n: nat)
    requires n >= 1
    ensures Pow2(CeilLog2(n)) == n <==> IsPow2(n)
  {
    CeilLog2Bounds(n);
    if e: nat :| Pow2(e) == n {
      if e < CeilLog2(n) {
        Pow2Monotone(e, CeilLog2(n) - 1);
      } else if e > CeilLog2(n) {
        Pow2Monotone(CeilLog2(n), e);
      }
    }
  }

  lemma {:induction false} LogOfPow2(e: nat)
    ensures FloorLog2(Pow2(e)) == e && CeilLog2(Pow2(e)) == e
  {
    FloorLogOfPow2(e);
    var n := Pow2(e);
    CeilLog2Bounds(n);
    var c := CeilLog2(n);
    if c < e {
      Pow2Monotone(c, e);
    } else if c > e {
      Pow2Monotone(e, c - 1);
    }
  }

  lemma {:induction false} FloorLogOfPow2(e: nat)
    ensures FloorLog2(Pow2(e)) == e
  {
    if e == 0 {
    } else {
      FloorLogOfPow2(e - 1);
      assert Pow2(e) / 2 == Pow2(e - 1);
    }
  }

  // --- Division by a variable ---

  lemma {:induction false} ScaleMonotone(a: int, b: int, p: int)
    requires a <= b && 0 < p
    ensures a * p <= b * p
  {
  }

  /** Quotient and remainder are determined by their defining equation. */
  lemma {:induction false} QuotientUnique(q: int, r: int, p: int)
    requires 0 <= r < p
    ensures (q * p + r) / p == q && (q * p + r) % p == r
  {
    var a := q * p + r;
    var d := a / p - q;
    assert d * p == r - a % p by {
      assert a == a / p * p + a % p;
      assert d * p == a / p * p - q * p;
    }
    if d > 0 {
      ScaleMonotone(1, d, p);
    } else if d < 0 {
      ScaleMonotone(d, -1, p);
    }
  }

  /** The low bits of a number are its remainder by a power of two. */
  lemma {:induction false} MaskIsRemainder(a: nat, bits: nat)
    ensures AllOnes(bits) == Pow2(bits) - 1
    ensures BitAnd(a, AllOnes(bits)) == a % Pow2(bits)
  {
    if bits == 0 {
    } else {
      MaskIsRemainder(a / 2, bits - 1);
      RemainderBit(a, Pow2(bits - 1));
      MaskBit(a, bits);
    }
  }

  lemma {:induction false} MaskBit(a: nat, bits: nat)
    requires bits > 0
    ensures BitAnd(a, AllOnes(bits)) == a % 2 + 2 * BitAnd(a / 2, AllOnes(bits - 1))
  {
    assert AllOnes(bits) / 2 == AllOnes(bits - 1) && AllOnes(bits) % 2 == 1;
  }

  lemma {:induction false} RemainderBit(a: nat, p: nat)
    requires p > 0
    ensures a % (2 * p) == 2 * (a / 2 % p) + a % 2
  {
    var q, r := a / 2 / p, a / 2 % p;
    assert q * (2 * p) == 2 * (q * p);
    QuotientUnique(q, 2 * r + a % 2, 2 * p);
  }

  // --- Counting bits ---

  /** hweight32: the number of bits set. */
  function PopCount(n: nat): nat {
    if n == 0 then 0 else n % 2 + PopCount(n / 2)
  }

  /** One bit set means a power of two, and then masking is taking the remainder. */
  lemma {:induction false} SingleBitMask(n: nat, a: nat)
    requires PopCount(n) == 1
    ensures n > 0 && BitAnd(a, n - 1) == a % n
  {
    var e := SingleBit(n);
    MaskIsRemainder(a, e);
  }

  lemma {:induction false} SingleBit(n: nat) returns (e: nat)
    requires PopCount(n) == 1
    ensures n == Pow2(e)
  {
    if n % 2 == 1 {
      NoBits(n / 2);
      e := 0;
    } else {
      var h := SingleBit(n / 2);
      e := h + 1;
    }
  }

  lemma {:induction false} NoBits(n: nat)
    requires PopCount(n) == 0
    ensures n == 0
  {
    if n == 0 {
    } else {
      NoBits(n / 2);
    }
  }
}

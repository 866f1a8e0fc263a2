/** Python's arithmetic on unbounded integers, as the tape and machine code
    uses it: right shift, left shift and `& 1`, together with the facts about
    them that the rest of the model needs. */
module Bits {

  /** One binary digit, the result of Python's `x & 1`. */
  type Bit = x: int | 0 <= x <= 1

  function Pow2(n: nat): (r: nat)
    ensures r > 0
  {
    if n == 0 then 1 else 2 * Pow2(n - 1)
  }

  lemma Pow2Nibbles()
    ensures Pow2(1) == 2 && Pow2(4) == 16 && Pow2(8) == 256 && Pow2(12) == 4096 && Pow2(16) == 0x1_0000
  {
  }

  /** Python's `x >> k`: k halvings, each rounding toward minus infinity. */
  function Shr(x: int, k: nat): int
    decreases k
  {
    if k == 0 then x else Shr(x / 2, k - 1)
  }

  /** Python's `x << k`: k doublings. */
  function Shl(x: int, k: nat): int
  {
    if k == 0 then x else 2 * Shl(x, k - 1)
  }

  lemma {:induction false} ShlIsMul(x: int, k: nat)
    ensures Shl(x, k) == x * Pow2(k)
  {
    if k > 0 {
      ShlIsMul(x, k - 1);
      assert x * Pow2(k) == 2 * (x * Pow2(k - 1));
    }
  }

  /** Bit `q` of `x`, counted from the least significant end: `x >> q & 1`. */
  function BitAt(x: int, q: nat): Bit
  {
    Shr(x, q) % 2
  }

  /** Euclidean division has exactly one quotient and remainder. */
  lemma DivModUnique(x: int, d: int, q: int, r: int)
    requires d > 0 && 0 <= r < d && x == q * d + r
    ensures x / d == q && x % d == r
  {
    var q0, r0 := x / d, x % d;
    if q0 < q {
      MulAtLeast(q - q0, d);
    } else if q < q0 {
      MulAtLeast(q0 - q, d);
    }
  }

  lemma MulAtLeast(e: int, d: int)
    requires e >= 1 && d > 0
    ensures e * d >= d
  {
    assert e * d == d + (e - 1) * d;
  }

  /** `Shr` is floor division by a power of two, on every integer. */
  lemma {:induction false} ShrIsFloorDiv(x: int, k: nat)
    ensures Shr(x, k) == x / Pow2(k)
    decreases k
  {
    if k > 0 {
      ShrIsFloorDiv(x / 2, k - 1);
      var d := Pow2(k - 1);
      var q, r := (x / 2) / d, (x / 2) % d;
      assert x == q * (2 * d) + (2 * r + x % 2);
      DivModUnique(x, 2 * d, q, 2 * r + x % 2);
    }
  }

  /** One more shift halves once more. */
  lemma {:induction false} ShrSucc(x: int, k: nat)
    ensures Shr(x, k + 1) == Shr(x, k) / 2
    decreases k
  {
    if k > 0 {
      ShrSucc(x / 2, k - 1);
    }
  }

  /** Python's `x - (x >> k << k)` keeps the low `k` bits: it is `x mod 2^k`. */
  lemma LowBits(x: int, k: nat)
    ensures x - Shl(Shr(x, k), k) == x % Pow2(k)
    ensures 0 <= x - Shl(Shr(x, k), k) < Pow2(k)
  {
    ShrIsFloorDiv(x, k);
    ShlIsMul(Shr(x, k), k);
  }

  /** Bit `q` of `a + 2^p * c` where `a` fits in `p` bits: the low bits come
      from `a`, the others from `c`. */
  lemma {:induction false} BitOfSum(a: int, c: int, p: nat, q: nat)
    requires 0 <= a < Pow2(p)
    ensures BitAt(a + Pow2(p) * c, q) == if q < p then BitAt(a, q) else BitAt(c, q - p)
  {
    if p > 0 {
      var x := a + Pow2(p) * c;
      var half := Pow2(p - 1);
      assert x == (a / 2 + half * c) * 2 + a % 2;
      DivModUnique(x, 2, a / 2 + half * c, a % 2);
      if q > 0 {
        BitOfSum(a / 2, c, p - 1, q - 1);
      }
    }
  }

  /** Reducing modulo `2^k` leaves every bit below `k` unchanged. */
  lemma MaskKeepsBits(x: int, k: nat, q: nat)
    requires q < k
    ensures BitAt(x % Pow2(k), q) == BitAt(x, q)
  {
    var p := Pow2(k);
    assert x == x % p + p * (x / p);
    BitOfSum(x % p, x / p, k, q);
  }
}

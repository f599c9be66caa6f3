/**
  Python's integer bit operations, written out over Dafny's unbounded integers.

  Python defines `&` and `|` on arbitrary integers as if each were an infinite
  two's-complement bit string, and `a >> n` as floor division by 2^n. Dafny's
  `/` and `%` by a positive divisor are floor division and a non-negative
  remainder, so peeling off the low bit with `a / 2` and `a % 2` gives exactly
  Python's bits, also for negative `a`. Each operation recurses on its
  non-negative operand, which is how every use in the drivers is shaped
  (a mask or a small constant on the right).
*/
module Bits {

  function Pow2(n: nat): (r: nat)
    ensures r >= 1
  {
    if n == 0 then 1 else 2 * Pow2(n - 1)
  }

  /** Python `a << n`. */
  function Shl(a: int, n: nat): int {
    a * Pow2(n)
  }

  /** Python `a >> n` (floor division, also for negative `a`). */
  function Shr(a: int, n: nat): int {
    a / Pow2(n)
  }

  /** Python `a & m` for any integer `a` and a non-negative mask `m`. */
  function And(a: int, m: nat): (r: nat)
    ensures r <= m
    decreases m
  {
    if m == 0 then 0 else 2 * And(a / 2, m / 2) + (if m % 2 == 1 then a % 2 else 0)
  }

  /** Python `a | b` for any integer `a` and a non-negative `b`. */
  function Or(a: int, b: nat): int
    decreases b
  {
    if b == 0 then a
    else 2 * Or(a / 2, b / 2) + (if a % 2 == 1 || b % 2 == 1 then 1 else 0)
  }

  lemma Pow2Values()
    ensures Pow2(1) == 2 && Pow2(2) == 4 && Pow2(3) == 8 && Pow2(4) == 16
    ensures Pow2(6) == 64 && Pow2(8) == 256 && Pow2(9) == 512 && Pow2(12) == 4096
    ensures Pow2(16) == 65536 && Pow2(23) == 0x80_0000 && Pow2(24) == 0x100_0000
  {
  }

  lemma MulDistributes(p: int, x: int, y: int)
    ensures p * (x + y) == p * x + p * y
  {
  }

  lemma MulAssociates(p: int, q: int, x: int)
    ensures p * (q * x) == (p * q) * x
  {
  }

  lemma MulMonotone(p: int, x: int, y: int)
    requires p >= 0 && x <= y
    ensures p * x <= p * y
  {
    MulDistributes(p, x, y - x);
  }

  /** Euclidean division is unique: any quotient/remainder pair in range is the one `/` and `%` give. */
  lemma DivModUnique(a: int, d: int, q: int, r: int)
    requires d > 0 && 0 <= r < d && a == d * q + r
    ensures a / d == q && a % d == r
  {
    var q', r' := a / d, a % d;
    assert a == d * q' + r';
    MulDistributes(d, q', q - q');
    if q' + 1 <= q {
      MulMonotone(d, q' + 1, q);
      MulDistributes(d, q', 1);
    }
    if q + 1 <= q' {
      MulMonotone(d, q + 1, q');
      MulDistributes(d, q, 1);
    }
  }

  /** Dividing by `p` and then by `q` is dividing by `p * q`; the remainders nest the same way. */
  lemma DivideTwice(a: int, p: int, q: int)
    requires p > 0 && q > 0
    ensures (a / p) / q == a / (p * q)
    ensures a % (p * q) == p * ((a / p) % q) + a % p
  {
    var q1, r1 := a / p, a % p;
    var q2, r2 := q1 / q, q1 % q;
    assert a == p * q1 + r1;
    assert q1 == q * q2 + r2;
    MulDistributes(p, q * q2, r2);
    MulAssociates(p, q, q2);
    assert a == (p * q) * q2 + (p * r2 + r1);
    MulMonotone(p, 0, r2);
    MulMonotone(p, r2, q - 1);
    MulDistributes(p, q, -1);
    DivModUnique(a, p * q, q2, p * r2 + r1);
  }

  /** Masking with 2^k - 1 keeps the low k bits: `a & (2^k - 1) == a mod 2^k`. */
  lemma AndLowMask(a: int, k: nat)
    ensures And(a, Pow2(k) - 1) == a % Pow2(k)
  {
    AndLowBits(a, k);
    LowBitsMod(a, k);
  }

  /** The low `k` bits of `a`, collected one at a time from the bottom. */
  function LowBits(a: int, k: nat): nat
    decreases k
  {
    if k == 0 then 0 else 2 * LowBits(a / 2, k - 1) + a % 2
  }

  lemma {:induction false} AndLowBits(a: int, k: nat)
    ensures And(a, Pow2(k) - 1) == LowBits(a, k)
    decreases k
  {
    if k > 0 {
      LowMaskStep(a, k);
      AndLowBits(a / 2, k - 1);
    }
  }

  lemma {:induction false} LowBitsMod(a: int, k: nat)
    ensures LowBits(a, k) == a % Pow2(k)
    decreases k
  {
    if k > 0 {
      LowBitsMod(a / 2, k - 1);
      LowBitsStep(a, k);
    }
  }

  /** Masking with 2^k - 1 keeps bit 0 and masks the rest of `a` with 2^(k-1) - 1. */
  lemma LowMaskStep(a: int, k: nat)
    requires k > 0
    ensures And(a, Pow2(k) - 1) == 2 * And(a / 2, Pow2(k - 1) - 1) + a % 2
  {
    var p := Pow2(k - 1);
    var m := Pow2(k) - 1;
    assert m == 2 * (p - 1) + 1;
    DivModUnique(m, 2, p - 1, 1);
    AndOddMask(a, m);
  }

  /** The residue modulo 2^k is bit 0 plus twice the residue of `a / 2` modulo 2^(k-1). */
  lemma LowBitsStep(a: int, k: nat)
    requires k > 0
    ensures a % Pow2(k) == 2 * ((a / 2) % Pow2(k - 1)) + a % 2
  {
    DivideTwice(a, 2, Pow2(k - 1));
  }

  /** One step of `And` against an odd mask keeps the low bit of `a`. */
  lemma AndOddMask(a: int, m: nat)
    requires m % 2 == 1
    ensures And(a, m) == 2 * And(a / 2, m / 2) + a % 2
  {
  }

  /** Masking with the single bit 2^k tests bit k: `a & 2^k` is 2^k when that bit is set and 0 otherwise. */
  lemma {:induction false} AndSingleBit(a: int, k: nat)
    ensures And(a, Pow2(k)) == Pow2(k) * ((a / Pow2(k)) % 2)
    decreases k
  {
    if k > 0 {
      var p := Pow2(k - 1);
      var x := And(a / 2, p);
      var bit := ((a / 2) / p) % 2;
      assert And(a, Pow2(k)) == 2 * x by {
        assert Pow2(k) == 2 * p;
        DivModUnique(2 * p, 2, p, 0);
        AndEvenMask(a, 2 * p);
      }
      assert x == p * bit by {
        AndSingleBit(a / 2, k - 1);
      }
      assert (a / 2) / p == a / Pow2(k) by {
        assert Pow2(k) == 2 * p;
        DivideTwice(a, 2, p);
      }
      assert 2 * (p * bit) == Pow2(k) * bit by {
        assert Pow2(k) == 2 * p;
        MulAssociates(2, p, bit);
      }
    }
  }

  /** One step of `And` against an even mask drops the low bit of `a`. */
  lemma AndEvenMask(a: int, m: nat)
    requires m > 0 && m % 2 == 0
    ensures And(a, m) == 2 * And(a / 2, m / 2)
  {
  }

  /** Or-ing a value below 2^k into a multiple of 2^k is addition: the bits do not overlap. */
  lemma {:induction false} OrDisjoint(q: int, lo: nat, k: nat)
    requires lo < Pow2(k)
    ensures Or(q * Pow2(k), lo) == q * Pow2(k) + lo
  {
    if lo > 0 {
      var p := Pow2(k - 1);
      var x := q * Pow2(k);
      assert x == 2 * (q * p);
      assert x / 2 == q * p && x % 2 == 0;
      OrDisjoint(q, lo / 2, k - 1);
    }
  }
}

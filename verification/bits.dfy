/** Machine-word arithmetic the discriminators are built from: powers of two,
    bit length and the leading-zero count of a 64-bit word. Shifts are
    written as division and masks as remainder by a power of two. */
module Bits {

  /** Bit width of a machine word (`usize` on a 64-bit target). */
  const K: nat := 64

  function Pow2(n: nat): (p: nat)
    ensures p >= 1
  {
    if n == 0 then 1 else 2 * Pow2(n - 1)
  }

  /** 2^K: one more than the largest machine word. */
  const WordRange: nat := 0x1_0000_0000_0000_0000

  /** A machine word: an unsigned integer of K bits. */
  type Key = x: nat | x < WordRange

  /** Number of significant bits of `v`: the position of its highest set bit plus one. */
  function BitLen(v: nat): nat
  {
    if v == 0 then 0 else 1 + BitLen(v / 2)
  }

  /** `v.leading_zeros()` of a K-bit word: the highest set bit of a nonzero `v` is bit
      `K - 1 - c`, and zero has K leading zeros. */
  function LeadingZeros(v: Key): (c: nat)
    ensures c <= K
    ensures v == 0 <==> c == K
    ensures v > 0 ==> Pow2(K - 1 - c) <= v < Pow2(K - c)
  {
    Pow2OfK();
    BitLenBound(v, K);
    BitLenBrackets(v);
    K - BitLen(v)
  }

  /** `v` lies between the power of two of its highest set bit and the next one. */
  lemma {:induction false} BitLenBrackets(v: nat)
    ensures v < Pow2(BitLen(v))
    ensures v > 0 ==> Pow2(BitLen(v) - 1) <= v
  {
    if v > 0 {
      BitLenBrackets(v / 2);
    }
  }

  lemma {:induction false} BitLenBound(v: nat, n: nat)
    requires v < Pow2(n)
    ensures BitLen(v) <= n
    decreases n
  {
    if v != 0 {
      assert n > 0;
      BitLenBound(v / 2, n - 1);
    }
  }

  lemma Pow2Add(a: nat, b: nat)
    ensures Pow2(a + b) == Pow2(a) * Pow2(b)
    decreases a
  {
    if a > 0 {
      Pow2Add(a - 1, b);
    }
  }

  /** Euclidean division is unique: a quotient/remainder pair pins down `x / d`. */
  lemma DivUnique(x: int, d: int, q: int, r: int)
    requires d > 0 && 0 <= r < d && x == d * q + r
    ensures x / d == q && x % d == r
  {
    var q', r' := x / d, x % d;
    assert x == d * q' + r';
    if q > q' {
      MulAtLeast(d, q - q');
    } else if q < q' {
      MulAtLeast(d, q' - q);
    }
  }

  lemma MulAtLeast(d: int, k: int)
    requires d > 0 && k >= 1
    ensures d * k >= d
  {
  }

  /** Shifting right by one more bit halves the already-shifted value. */
  lemma DivTwice(x: nat, p: nat)
    requires p > 0
    ensures x / (2 * p) == (x / p) / 2
  {
    var q := x / p;
    var s := q / 2;
    assert x == p * q + x % p;
    assert q == 2 * s + q % 2;
    assert x == (2 * p) * s + (p * (q % 2) + x % p);
    assert 0 <= p * (q % 2) <= p;
    DivUnique(x, 2 * p, s, p * (q % 2) + x % p);
  }

  /** `x >> (n + 1) == (x >> n) >> 1`. */
  lemma ShiftStep(x: nat, n: nat)
    ensures x / Pow2(n + 1) == (x / Pow2(n)) / 2
  {
    DivTwice(x, Pow2(n));
  }

  /** The word range is the K-th power of two. */
  lemma Pow2OfK()
    ensures Pow2(K) == WordRange
  {
    assert Pow2(4) == 16;
    Pow2Add(4, 4);
    Pow2Add(8, 8);
    Pow2Add(16, 16);
    Pow2Add(32, 32);
  }
}

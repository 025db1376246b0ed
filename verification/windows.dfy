/** The bit-window discriminator of "Efficient Multiway Radix Search Trees":
    a key is shifted right by `r` and masked to the `l - r + 1` bits of the
    inclusive range [r, l], and `critical_window` scans the word from its top
    bit down for the widest window whose images are densely packed. */
module Windows {
  import opened Bits
  import opened Seqs

  /** 2^62, a quarter of the word range. Subsets up to this size never get the full-width
      window from `critical_window`. */
  const QuarterWord: nat := 0x4000_0000_0000_0000

  lemma QuarterWordIsPow2()
    ensures Pow2(K - 2) == QuarterWord
  {
    Pow2OfK();
    assert Pow2(K) == 4 * Pow2(K - 2);
  }

  /** An inclusive bit range [r, l] (`Window { l: u8, r: u8 }`). */
  datatype Window = Window(l: nat, r: nat)

  /** A window the discriminator can be built from: both edges inside the word, r <= l. */
  predicate Valid(w: Window)
  {
    w.r <= w.l < K
  }

  /** `1 + l - r`, defined (in `u8`) as long as `r <= l + 1`; zero for the empty window
      `critical_window` produces after shrinking a one-bit window. */
  function Width(w: Window): nat
    requires w.r <= w.l + 1
  {
    w.l + 1 - w.r
  }

  /** `(input >> r) & ((1 << width) - 1)`. */
  function Hash(w: Window, x: nat): nat
    requires w.r <= w.l + 1
  {
    (x / Pow2(w.r)) % Pow2(Width(w))
  }

  /** `1 << (1 + (l - r))`: the number of bucket values the window can address. */
  function Size(w: Window): nat
    requires w.r <= w.l
  {
    Pow2(w.l - w.r + 1)
  }

  /** Every key, in the subset or not, lands in an addressable bucket. */
  lemma HashBelowSize(w: Window, x: nat)
    requires w.r <= w.l
    ensures 0 <= Hash(w, x) < Size(w)
  {
  }

  /** Bit `j` of `x`. */
  function Bit(x: nat, j: nat): nat
  {
    (x / Pow2(j)) % 2
  }

  /** The hash of `x` is the field of bits r..l of `x`: bit `j` of the hash is bit `r + j` of the key. */
  lemma HashIsBitField(w: Window, x: nat, j: nat)
    requires w.r <= w.l + 1 && j < Width(w)
    ensures Bit(Hash(w, x), j) == Bit(x, w.r + j)
  {
    Pow2Split(j, Width(w));
    Pow2Add(w.r, j);
    FieldBit(x, Pow2(w.r), Pow2(j), Pow2(Width(w) - j - 1), Pow2(Width(w)));
  }

  /** Bit `j` of the field `(x >> r) & mask` is bit `r + j` of `x`, over the divisors. */
  lemma FieldBit(x: nat, pr: nat, pj: nat, e: nat, pw: nat)
    requires pr > 0 && pj > 0 && e > 0 && pw == pj * (2 * e)
    ensures (((x / pr) % pw) / pj) % 2 == (x / (pr * pj)) % 2
  {
    MaskBit(x / pr, pj, e, pw);
    DivDiv(x, pr, pj);
  }

  /** Reducing modulo an even multiple `m` of `p` keeps bit 0 of the quotient by `p`. */
  lemma MaskBit(a: nat, p: nat, e: nat, m: nat)
    requires p > 0 && e > 0 && m == p * (2 * e)
    ensures ((a % m) / p) % 2 == (a / p) % 2
  {
    var q := a / m;
    SplitMultiple(a, m, p, 2 * e);
    assert (2 * e) * q == 2 * (e * q);
    BitOfSum(a, p, e * q, a % m);
  }

  lemma Pow2Split(j: nat, width: nat)
    requires j < width
    ensures Pow2(width) == Pow2(j) * (2 * Pow2(width - j - 1))
  {
    Pow2Add(j, width - j);
  }

  /** Adding an even multiple of `p` does not change bit 0 of the quotient by `p`. */
  lemma BitOfSum(a: nat, p: nat, k: nat, t: nat)
    requires p > 0 && a == p * (2 * k) + t
    ensures (a / p) % 2 == (t / p) % 2
  {
    DivAddMultiple(p, 2 * k, t);
  }

  /** `a == m * (a / m) + a % m` with the multiple of `m == p * c` regrouped around `p`. */
  lemma SplitMultiple(a: nat, m: nat, p: nat, c: nat)
    requires m > 0 && m == p * c
    ensures a == p * (c * (a / m)) + a % m
  {
    assert a == m * (a / m) + a % m;
    assert m * (a / m) == p * (c * (a / m));
  }

  /** `(p * k + z) / p == k + z / p`. */
  lemma DivAddMultiple(p: nat, k: nat, z: nat)
    requires p > 0
    ensures (p * k + z) / p == k + z / p
  {
    assert z == p * (z / p) + z % p;
    assert p * k + z == p * (k + z / p) + z % p;
    DivUnique(p * k + z, p, k + z / p, z % p);
  }

  /** `(x >> a) >> b == x >> (a + b)`, for the divisors themselves. */
  lemma DivDiv(x: nat, p: nat, q: nat)
    requires p > 0 && q > 0
    ensures (x / p) / q == x / (p * q)
  {
    var a, s := x / p, x % p;
    var b, t := a / q, a % q;
    assert x == p * a + s;
    assert a == q * b + t;
    Regroup(p, q, b, t);
    MulAtMost(p, t, q - 1);
    DivUnique(x, p * q, b, p * t + s);
  }

  /** `p * (q * b + t) == (p * q) * b + p * t`. */
  lemma Regroup(p: int, q: int, b: int, t: int)
    ensures p * (q * b + t) == (p * q) * b + p * t
  {
  }

  /** `p * t <= p * m` when `t <= m`, and `p * (q - 1) == p * q - p`. */
  lemma MulAtMost(p: nat, t: nat, m: nat)
    requires t <= m
    ensures p * t <= p * m && p * m == p * (m + 1) - p
  {
  }

  /** The bucket values the window assigns to the subset, in subset order. */
  function Images(cases: seq<Key>, w: Window): (s: seq<int>)
    requires w.r <= w.l + 1
    ensures |s| == |cases|
  {
    seq(|cases|, i requires 0 <= i < |cases| => Hash(w, cases[i]))
  }

  /** `mapped_cardinality`: collect the images, sort, dedup and count them. */
  function MappedCardinality(cases: seq<Key>, w: Window): nat
    requires w.r <= w.l + 1
  {
    DistinctCount(Images(cases, w))
  }

  /** The cardinality counts distinct bucket values: at most one per case, at least one when
      there is a case, and exactly one for the empty window. */
  lemma CardinalityBounds(cases: seq<Key>, w: Window)
    requires w.r <= w.l + 1
    ensures MappedCardinality(cases, w) <= |cases|
    ensures |cases| > 0 ==> MappedCardinality(cases, w) >= 1
    ensures Width(w) == 0 ==> MappedCardinality(cases, w) <= 1
  {
    var s := Images(cases, w);
    DistinctCountAtMostLength(s);
    if |cases| > 0 {
      assert s[0] in Elements(s);
    }
    if Width(w) == 0 {
      assert Elements(s) <= {0};
      SubsetCard(Elements(s), {0});
    }
  }

  /** Two cases fall into different buckets exactly when the cardinality reaches two. */
  lemma CardinalityAtLeastTwo(cases: seq<Key>, w: Window)
    requires w.r <= w.l + 1
    ensures MappedCardinality(cases, w) >= 2 <==>
            exists i, j :: 0 <= i < |cases| && 0 <= j < |cases| && Hash(w, cases[i]) != Hash(w, cases[j])
  {
    var s := Images(cases, w);
    DistinctCountAtLeastTwo(s);
    if HasTwoDistinct(s) {
      var i, j :| 0 <= i < |s| && 0 <= j < |s| && s[i] != s[j];
      assert Hash(w, cases[i]) != Hash(w, cases[j]);
    }
    if exists i, j :: 0 <= i < |cases| && 0 <= j < |cases| && Hash(w, cases[i]) != Hash(w, cases[j]) {
      var i, j :| 0 <= i < |cases| && 0 <= j < |cases| && Hash(w, cases[i]) != Hash(w, cases[j]);
      assert s[i] != s[j];
    }
  }

  /** `is_critical`: the images outnumber `1 << (l - r)`. */
  predicate IsCritical(cases: seq<Key>, w: Window)
    requires w.r <= w.l
  {
    MappedCardinality(cases, w) > Pow2(w.l - w.r)
  }

  /** A window is critical exactly when more than half of its buckets are occupied. */
  lemma CriticalMeansDense(cases: seq<Key>, w: Window)
    requires w.r <= w.l
    ensures IsCritical(cases, w) <==> 2 * MappedCardinality(cases, w) > Size(w)
  {
  }

  /** All keys agree on every bit at position `n` and above. */
  predicate AgreeFrom(cases: seq<Key>, n: nat)
  {
    forall i, j :: 0 <= i < |cases| && 0 <= j < |cases| ==> cases[i] / Pow2(n) == cases[j] / Pow2(n)
  }

  /** State of `critical_window` at the head of the iteration for bit `n - 1`: the left
      edge `l` and the best window `wMax` so far. The left edge trails the scanned bit by
      at most one position, and it trails by exactly one only while every window tried so
      far was a single bit that failed to split the keys. */
  predicate ScanInvariant(cases: seq<Key>, n: nat, l: nat, wMax: Window)
  {
    && HasTwoDistinct(cases)
    && n <= l + 1 && l < K
    && (l + 1 == n ==> AgreeFrom(cases, n))
    && Valid(wMax)
    && (l + 1 > n ==> MappedCardinality(cases, wMax) >= 2)
    && (l == K - 1 && n < K ==> IsCritical(cases, Window(l, n)))
    && (|cases| <= QuarterWord ==> wMax.l - wMax.r < 63)
  }

  /** One iteration of `critical_window` that found `Window(l, b)` not critical: the
      `u8` decrement `w.l -= 1` does not underflow, and if the window was a single bit
      the keys now agree from bit `b` upwards. */
  lemma NonCriticalStep(cases: seq<Key>, l: nat, b: nat)
    requires HasTwoDistinct(cases)
    requires b <= l && (l == b ==> AgreeFrom(cases, b + 1))
    requires !IsCritical(cases, Window(l, b))
    ensures l >= 1
    ensures l == b ==> AgreeFrom(cases, b)
  {
    if l == b {
      var w := Window(b, b);
      CardinalityAtLeastTwo(cases, w);
      forall i, j | 0 <= i < |cases| && 0 <= j < |cases|
        ensures cases[i] / Pow2(b) == cases[j] / Pow2(b)
      {
        ShiftStep(cases[i], b);
        ShiftStep(cases[j], b);
        assert Hash(w, cases[i]) == Hash(w, cases[j]);
      }
      if b == 0 {
        var i, j :| 0 <= i < |cases| && 0 <= j < |cases| && cases[i] != cases[j];
        assert false;
      }
    }
  }

  /** One iteration of `critical_window` that found `Window(l, b)` critical: it splits the
      keys, and it is narrower than the full word unless the subset is huge. */
  lemma CriticalStep(cases: seq<Key>, l: nat, b: nat)
    requires b <= l < K
    requires IsCritical(cases, Window(l, b))
    requires l == K - 1 && b + 1 < K ==> IsCritical(cases, Window(l, b + 1))
    ensures MappedCardinality(cases, Window(l, b)) >= 2
    ensures |cases| <= QuarterWord ==> l - b < 63
  {
    if l == K - 1 && b == 0 {
      CardinalityBounds(cases, Window(l, 1));
      QuarterWordIsPow2();
    }
  }

  /** The loop of `critical_window` from the iteration for bit `n - 1` on. Each iteration
      sets the right edge to the scanned bit; a critical window is recorded as the best, and
      otherwise the left edge moves down one bit and the narrower window replaces the best
      only if it has strictly more distinct images. */
  function Scan(cases: seq<Key>, n: nat, l: nat, wMax: Window): (w: Window)
    requires ScanInvariant(cases, n, l, wMax)
    ensures Valid(w)
    ensures MappedCardinality(cases, w) >= 2
    ensures |cases| <= QuarterWord ==> w.l - w.r < 63
    decreases n
  {
    if n == 0 then
      ScanDone(cases, l, wMax);
      wMax
    else
      var b := n - 1;
      var cur := Window(l, b);
      if IsCritical(cases, cur) then
        CriticalKeeps(cases, n, l, wMax);
        Scan(cases, b, l, cur)
      else
        NonCriticalKeeps(cases, n, l, wMax);
        Scan(cases, b, l - 1, Better(cases, Window(l - 1, b), wMax))
  }

  /** When the scan ends, the best window is valid and splits the subset. */
  lemma ScanDone(cases: seq<Key>, l: nat, wMax: Window)
    requires ScanInvariant(cases, 0, l, wMax)
    ensures Valid(wMax) && MappedCardinality(cases, wMax) >= 2
    ensures |cases| <= QuarterWord ==> wMax.l - wMax.r < 63
  {
  }

  /** The narrower window replaces the best so far only with strictly more images. */
  function Better(cases: seq<Key>, narrower: Window, wMax: Window): Window
    requires narrower.r <= narrower.l + 1 && wMax.r <= wMax.l + 1
  {
    if MappedCardinality(cases, narrower) > MappedCardinality(cases, wMax) then narrower else wMax
  }

  /** A critical window becomes the best, and the scan state stays consistent. */
  lemma CriticalKeeps(cases: seq<Key>, n: nat, l: nat, wMax: Window)
    requires ScanInvariant(cases, n, l, wMax) && n > 0
    requires IsCritical(cases, Window(l, n - 1))
    ensures ScanInvariant(cases, n - 1, l, Window(l, n - 1))
  {
    var b := n - 1;
    CriticalStep(cases, l, b);
    assert b <= l;
    assert l == K - 1 && b < K ==> IsCritical(cases, Window(l, b));
  }

  /** A non-critical window moves the left edge down, and the scan state stays consistent. */
  lemma NonCriticalKeeps(cases: seq<Key>, n: nat, l: nat, wMax: Window)
    requires ScanInvariant(cases, n, l, wMax) && n > 0
    requires !IsCritical(cases, Window(l, n - 1))
    ensures l >= 1
    ensures ScanInvariant(cases, n - 1, l - 1, Better(cases, Window(l - 1, n - 1), wMax))
  {
    var b := n - 1;
    NonCriticalStep(cases, l, b);
    CardinalityBounds(cases, Window(l - 1, b));
    CardinalityBounds(cases, wMax);
  }

  /** `critical_window`: start from the single top bit and scan the right edge down to bit 0.
      On a subset with two distinct keys the result is a window inside the word that splits
      the subset into at least two buckets; it is never the full 64-bit window (whose mask
      would overflow) unless the subset has more than 2^62 cases. */
  function CriticalWindow(cases: seq<Key>): (w: Window)
    requires HasTwoDistinct(cases)
    ensures Valid(w)
    ensures MappedCardinality(cases, w) >= 2
    ensures |cases| <= QuarterWord ==> Width(w) < K
  {
    TopBitsAgree(cases);
    Scan(cases, K, K - 1, Window(K - 1, K - 1))
  }

  /** No key reaches bit K. */
  lemma TopBitsAgree(cases: seq<Key>)
    ensures AgreeFrom(cases, K)
  {
    Pow2OfK();
    forall i | 0 <= i < |cases|
      ensures cases[i] / Pow2(K) == 0
    {
      DivUnique(cases[i], Pow2(K), 0, cases[i]);
    }
  }

  /** `Window { l: 5, r: 3 }.hash(41) == 5`: bits 3 to 5 of 0b101001 are 0b101. */
  lemma HashExample()
    ensures Hash(Window(5, 3), 41) == 5
  {
  }
}

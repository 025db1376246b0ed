/** The discriminators ("hash functions") a tree node can dispatch on, and the
    strategies ("hash methods") that calibrate one to the key subset at a node.
    The source's `Box<HashFn>` trait objects are the closed datatype `Hash`;
    its `HashMethod` implementors are the closed datatype `Method`. */
module Discriminators {
  import opened Bits
  import opened Seqs
  import Windows

  type ValidWindow = w: Windows.Window | Windows.Valid(w) witness Windows.Window(0, 0)

  /** A calibrated discriminator: a bit window, `clz(x) - bias` with `size` buckets, or
      `x - bias` with `max` buckets. */
  datatype Hash =
    | Win(w: ValidWindow)
    | ClzBias(bias: nat, size: nat)
    | SubBias(bias: nat, max: nat)

  /** The strategies: `ShiftMask` (critical window), `ClzSub` and `SubLow`. */
  datatype Method = ShiftMask | ClzSub | SubLow

  /** `HashFn::hash`. A negative value stands for the `usize` subtraction the source would
      underflow on; it only arises for keys outside the set the discriminator was
      calibrated to. */
  function HashOf(h: Hash, x: Key): int
  {
    match h
    case Win(w) => Windows.Hash(w, x)
    case ClzBias(bias, _) => LeadingZeros(x) - bias
    case SubBias(bias, _) => x - bias
  }

  /** `HashFn::size` (called `max` in the variant of `methods.rs`): the number of buckets. */
  function SizeOf(h: Hash): nat
  {
    match h
    case Win(w) => Windows.Size(w)
    case ClzBias(_, size) => size
    case SubBias(_, max) => max
  }

  /** Every key of the calibration set lands in a bucket: `0 <= hash < size`. */
  predicate InRange(h: Hash, cases: seq<Key>)
  {
    forall i :: 0 <= i < |cases| ==> 0 <= HashOf(h, cases[i]) < SizeOf(h)
  }

  function LeadingZeroCounts(cases: seq<Key>): (s: seq<nat>)
    ensures |s| == |cases|
    ensures forall i :: 0 <= i < |cases| ==> s[i] == LeadingZeros(cases[i])
  {
    seq(|cases|, i requires 0 <= i < |cases| => LeadingZeros(cases[i]))
  }

  /** `ClzSub::new`: the bias is the least leading-zero count of the set and the size is one
      more than the largest biased count. Every key of the set then hashes into
      [0, size) without underflow, the bias is attained so bucket 0 and the last bucket are
      both used, and the size is between 1 and K + 1. */
  function ClzSubNew(cases: seq<Key>): (h: Hash)
    requires |cases| > 0
    ensures h.ClzBias? && 1 <= h.size <= K + 1
    ensures InRange(h, cases)
    ensures exists i :: 0 <= i < |cases| && HashOf(h, cases[i]) == 0
    ensures exists i :: 0 <= i < |cases| && HashOf(h, cases[i]) == SizeOf(h) - 1
  {
    var counts := LeadingZeroCounts(cases);
    var bias := MinOf(counts);
    var biased := seq(|cases|, i requires 0 <= i < |cases| => counts[i] - bias);
    var top := MaxOf(biased);
    assert forall i :: 0 <= i < |cases| ==> HashOf(ClzBias(bias, top + 1), cases[i]) == biased[i];
    ClzBias(bias, top + 1)
  }

  /** `SubLow::new`: the bias is the least key and `max` is one more than the largest key
      minus the bias. Every key of the set hashes into [0, max) without underflow, and
      adding the bias back recovers the key, so no two keys share a bucket. */
  function SubLowNew(cases: seq<Key>): (h: Hash)
    requires |cases| > 0
    ensures h.SubBias? && h.max >= 1
    ensures InRange(h, cases)
    ensures h.bias in cases
    ensures exists i :: 0 <= i < |cases| && HashOf(h, cases[i]) == h.max - 1
    ensures forall i, j :: 0 <= i < |cases| && 0 <= j < |cases| && HashOf(h, cases[i]) == HashOf(h, cases[j]) ==> cases[i] == cases[j]
  {
    var bias := MinOf(cases);
    var biased := seq(|cases|, i requires 0 <= i < |cases| => cases[i] - bias);
    var h := SubBias(bias, MaxOf(biased) + 1);
    SubtractionHashes(h, cases);
    assert forall i :: 0 <= i < |cases| ==> HashOf(h, cases[i]) == biased[i];
    var top :| 0 <= top < |biased| && biased[top] == MaxOf(biased);
    assert HashOf(h, cases[top]) == h.max - 1;
    h
  }

  /** Subtracting a bias sends distinct keys to distinct values. */
  lemma SubtractionHashes(h: Hash, cases: seq<Key>)
    requires h.SubBias?
    ensures forall i :: 0 <= i < |cases| ==> HashOf(h, cases[i]) == cases[i] - h.bias
    ensures forall i, j :: 0 <= i < |cases| && 0 <= j < |cases| && HashOf(h, cases[i]) == HashOf(h, cases[j]) ==> cases[i] == cases[j]
  {
  }

  /** What a strategy's constructor demands of the subset: `critical_window` needs two
      distinct keys (its `u8` left edge underflows otherwise), the others assert a
      nonempty subset. */
  predicate Calibratable(m: Method, cases: seq<Key>)
  {
    match m
    case ShiftMask => HasTwoDistinct(cases)
    case _ => |cases| > 0
  }

  /** `HashMethod::new`: calibrate the strategy to the subset. The discriminator always has
      at least one bucket and sends every key of the subset to one of them. */
  function Instantiate(m: Method, cases: seq<Key>): (h: Hash)
    requires Calibratable(m, cases)
    ensures SizeOf(h) >= 1
    ensures InRange(h, cases)
    ensures m == ShiftMask ==> h.Win? && Windows.MappedCardinality(cases, h.w) >= 2
    ensures m == ClzSub ==> h.ClzBias?
    ensures m == SubLow ==> h.SubBias?
  {
    match m
    case ShiftMask =>
      var w := Windows.CriticalWindow(cases);
      forall i | 0 <= i < |cases|
        ensures 0 <= Windows.Hash(w, cases[i]) < Windows.Size(w)
      {
        Windows.HashBelowSize(w, cases[i]);
      }
      Win(w)
    case ClzSub => ClzSubNew(cases)
    case SubLow => SubLowNew(cases)
  }

  /** The critical window sends two keys of the subset to different buckets. */
  lemma ShiftMaskSplits(cases: seq<Key>)
    requires HasTwoDistinct(cases)
    ensures exists i, j :: 0 <= i < |cases| && 0 <= j < |cases| &&
                           HashOf(Instantiate(ShiftMask, cases), cases[i]) != HashOf(Instantiate(ShiftMask, cases), cases[j])
  {
    var h := Instantiate(ShiftMask, cases);
    Windows.CardinalityAtLeastTwo(cases, h.w);
    var i, j :| 0 <= i < |cases| && 0 <= j < |cases| && Windows.Hash(h.w, cases[i]) != Windows.Hash(h.w, cases[j]);
    assert HashOf(h, cases[i]) != HashOf(h, cases[j]);
  }
}

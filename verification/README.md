# mrst: multiway radix search trees, modelled in Dafny

The repository builds a *multiway radix search tree* for a `switch` over machine-word
case values, after the paper "Efficient Multiway Radix Search Trees". Each case value
carries a payload. Every branch node holds a *discriminator*: a hash function calibrated
to the case values that reach the node. The node has one child per bucket of that
discriminator. A leaf holds a single case, or `Default`.

Three discriminator strategies are modelled:

- `ShiftMask`: a bit window `[r, l]` of the key. `critical_window` scans the word from
  its top bit down and picks the widest window whose images fill more than half of its
  buckets.
- `ClzSub`: the leading-zero count minus the least count of the subset.
- `SubLow`: the key minus the least key of the subset.

`Tree::new_helper` tries every strategy at a node and partitions the subset by bucket. It
builds each bucket one level deeper. It drops a strategy when any bucket fails, and keeps
the first shallowest complete candidate. Recursion stops once the depth exceeds the
number of root cases.

Files and modules:

- `bits.dfy` (`Bits`): powers of two, 64-bit keys (`Key`), bit length, `leading_zeros`.
- `wrappers.dfy` (`Wrappers`): `Option` and `Result`.
- `seqs.dfy` (`Seqs`): duplicate-freedom, the "sort, dedup, count" idiom (`DistinctCount`),
  minimum and maximum.
- `windows.dfy` (`Windows`): the window hash, `mapped_cardinality`, `is_critical` and
  `critical_window`. The `for b in (0..K).rev()` loop is the recursive function `Scan`.
  Its precondition `ScanInvariant` is the loop invariant.
- `discriminators.dfy` (`Discriminators`): the closed datatypes `Hash` (the source's
  `Box<HashFn>`) and `Method` (the `HashMethod` implementors), and the strategy
  constructors.
- `tree.dfy` (`RadixTree`): `Tree`, `Marker`, `depth`, bucketing, candidate selection,
  `new_helper` and `new`.
- `scenarios.dfy` (`Scenarios`): the repository's own test input and small concrete cases.

`Lookup` walks a tree from the root, following the child the node's discriminator selects.
It is the model's reading of what the tree dispatches to. The source has no such function,
but its graph output follows the same edges. Completeness and soundness are stated
through it.

Where a source operation subtracts in `usize`, the model computes in `int`. A negative
result stands for the underflow; it arises only for keys outside the calibration set.

No discriminator is rejected for its bucket count; only the `depth > max_depth` test
(`src/lib.rs:59-61`) bounds recursion.

`src/methods.rs` is a variant copy of `src/lib.rs`. Its bucket count is named `max`
instead of `size`. It adds the `SubLow` strategy. The shared types are modelled once.

## Model

| member | source | states |
|---|---|---|
| Bits.LeadingZeros | src/lib.rs:129-131 | the leading-zero count of a 64-bit key is at most 64, is 64 exactly for zero, and for a nonzero key places the highest set bit at position 63 - count |
| Windows.Hash | src/lib.rs:215-219 | the window hash is the key shifted right by r and masked to l - r + 1 bits; HashBelowSize bounds it by the size and HashIsBitField shows bit j of it is bit r + j of the key |
| Windows.Size | src/lib.rs:221-223 | the window's bucket count is 2^(l - r + 1); HashBelowSize shows every hash lies below it |
| Windows.HashBelowSize | src/lib.rs:214-223 | every key, in the subset or not, hashes below the window's size 2^(l-r+1) |
| Windows.HashIsBitField | src/lib.rs:215-219 | shift-and-mask extracts bits r..l: bit j of the hash is bit r+j of the key |
| Windows.HashExample | src/lib.rs:264-266 | the window [3,5] hashes 41 to 5 |
| Windows.MappedCardinality | src/lib.rs:239-246 | the number of distinct window images of the subset after sort and dedup; CardinalityBounds and CardinalityAtLeastTwo characterize it |
| Windows.CardinalityBounds | src/lib.rs:239-246 | the number of distinct images is at most the number of cases, at least one for a nonempty subset, and at most one for an empty window (the copy at src/methods.rs:149-154 is the same) |
| Windows.CardinalityAtLeastTwo | src/lib.rs:239-246 | the window has two or more distinct images exactly when it separates two keys of the subset |
| Seqs.DistinctCount | src/lib.rs:41-47 | the length of the list after sort and dedup, taken as the size of its set of values; DistinctCountIsLength and DistinctCountAtLeastTwo characterize it |
| Seqs.DistinctCountIsLength | src/lib.rs:41-48 | sorting and deduplicating keeps the length exactly when the list has no duplicate |
| Windows.IsCritical | src/lib.rs:183-188 | a window is critical when its image count exceeds 2^(l - r); CriticalMeansDense shows this means more than half of its buckets are occupied |
| Windows.CriticalMeansDense | src/lib.rs:183-188 | a window is critical exactly when more than half of its buckets are occupied |
| Windows.NonCriticalStep | src/lib.rs:198-202 | on a subset with two distinct keys, the u8 decrement of the left edge after a non-critical window never underflows |
| Windows.CriticalStep | src/lib.rs:198-200 | a critical window separates keys and is narrower than the word unless the subset has more than 2^62 cases |
| Windows.CriticalKeeps | src/lib.rs:199-200 | recording a critical window as the best keeps the loop invariant of the scan |
| Windows.Better | src/lib.rs:203-205 | the narrowed window replaces the best only when it has strictly more images; NonCriticalKeeps shows the scan invariant survives this choice |
| Windows.NonCriticalKeeps | src/lib.rs:201-206 | shrinking the left edge and keeping the window with more images keeps the loop invariant |
| Windows.Scan | src/lib.rs:197-208 | the scan loop ends with a valid window that separates the subset and is narrower than the word for subsets up to 2^62 cases |
| Windows.CriticalWindow | src/lib.rs:191-211 | on two distinct keys the result satisfies r <= l < 64, has at least two images, and its mask cannot overflow for subsets up to 2^62 cases (the copy at src/methods.rs:128-147 is the same loop) |
| Discriminators.HashOf | src/lib.rs:14-17 | `HashFn::hash` dispatched on the closed discriminator type: the window hash, the leading-zero count minus the bias (src/lib.rs:129-131, src/methods.rs:66-68), or the key minus the bias (src/methods.rs:21-23); InRange, ClzSubNew and SubLowNew state where it lands on the calibration set |
| Discriminators.SizeOf | src/lib.rs:14-17 | `HashFn::size` (called `max` in src/methods.rs:25-27): the window's 2^(l - r + 1) or the stored bucket count; Instantiate shows every calibrated discriminator has at least one bucket |
| Discriminators.ClzSubNew | src/lib.rs:144-164 | on a nonempty subset every key's biased count lies in [0, size), both bucket 0 and the last bucket are hit, and 1 <= size <= 65 (the copy at src/methods.rs:81-101 calibrates identically) |
| Discriminators.SubLowNew | src/methods.rs:36-56 | on a nonempty subset the bias is a key of the subset and no key lies below it, so it is the least key; every key minus the bias lies in [0, max) and the largest key lands in the last bucket max - 1, so max is one more than the span; distinct keys land in distinct buckets |
| Discriminators.Instantiate | src/lib.rs:170-174 | each strategy yields a discriminator with at least one bucket that sends every key of the subset to a bucket; the window one has at least two images |
| Discriminators.ShiftMaskSplits | src/lib.rs:191-211 | the critical window sends two keys of the subset to different buckets |
| RadixTree.Depth | src/lib.rs:111-118 | a leaf counts one level, a branch one more than its deepest child; DepthOfBranch characterizes it |
| RadixTree.DepthOfBranch | src/lib.rs:111-118 | a branch is strictly deeper than each child and no deeper than one more than any bound on the children, so exactly one deeper than the deepest child |
| RadixTree.Bucket | src/lib.rs:79-83 | a bucket pairs cases with payloads, is no longer than the subset, and holds only keys hashed to its slot |
| RadixTree.BucketKeeps | src/lib.rs:79-83 | every pair whose key hashes to the slot is in the bucket, with its own payload |
| RadixTree.BucketPairsFromSubset | src/lib.rs:79-83 | every pair of the bucket is a pair of the subset: payloads stay with their keys |
| RadixTree.BucketDistinct | src/lib.rs:79-83 | buckets hold only keys of the subset, so a duplicate-free subset has duplicate-free buckets |
| RadixTree.BucketAppend | src/lib.rs:79-83 | bucketing a concatenation buckets each part and concatenates: the filter keeps subset order |
| RadixTree.BucketShrinks | src/lib.rs:82 | a bucket is strictly smaller than the subset once one key hashes elsewhere |
| RadixTree.ShiftMaskBucketShrinks | src/lib.rs:76-86 | every bucket of the critical window is strictly smaller than the subset |
| RadixTree.BucketOfInjective | src/methods.rs:20-23 | a discriminator injective on the subset, as SubLow's is, leaves at most one case per bucket |
| RadixTree.Step | src/lib.rs:96-98 | one round of the selection loop: a complete candidate replaces the best when there is none yet or when it is strictly shallower; PickIsFirstMinimal shows the loop of these rounds keeps the first shallowest candidate |
| RadixTree.Pick | src/lib.rs:71-101 | the selection loop yields one of the candidates, and yields none exactly when every candidate failed |
| RadixTree.PickIsFirstMinimal | src/lib.rs:96-98 | the selection loop yields the first candidate of minimal depth: none is shallower and every earlier one is strictly deeper |
| RadixTree.FirstMinimalUnique | src/lib.rs:96-98 | the first minimal candidate is unique |
| RadixTree.NewHelper | src/lib.rs:53-102 | past the depth limit it fails; an empty subset gives the default leaf and a single case its case leaf; a tree built at depth d has depth at most max_depth - d + 1 and one child per bucket everywhere |
| RadixTree.Child | src/lib.rs:78-86 | the child for a slot is the bucket of that slot built one level deeper; Candidate and ShiftMaskChildBuilds state what it yields |
| RadixTree.Candidate | src/lib.rs:74-94 | a candidate branch uses the calibrated discriminator, has one child per bucket, and child s is the bucket of s built one level deeper; it is dropped exactly when some bucket cannot be built |
| RadixTree.NewHelperPicks | src/lib.rs:71-101 | a tree built for two or more cases is the candidate of one of the strategies |
| RadixTree.CandidateBuilds | src/lib.rs:89-98 | a strategy whose every bucket builds makes the node's tree exist |
| RadixTree.NewHelperFindsEveryCase | src/lib.rs:53-102 | completeness: walking a built tree with any key of a duplicate-free subset ends at the case leaf of that key and its own payload |
| RadixTree.NewHelperLeavesFromSubset | src/lib.rs:67-85 | soundness: any case leaf a walk reaches holds a key and payload paired in the subset |
| RadixTree.ShiftMaskAlwaysBuilds | src/lib.rs:53-102 | with the critical window available, a duplicate-free subset always builds when the budget leaves one level per case |
| RadixTree.ShiftMaskChildBuilds | src/lib.rs:78-86 | with the critical window available, every bucket of the critical window builds one level deeper |
| RadixTree.SubLowAlwaysBuilds | src/methods.rs:36-56 | with SubLow available, a duplicate-free subset always builds within two levels |
| RadixTree.Build | src/lib.rs:39-51 | no strategies and duplicate cases are the rejected inputs, each exactly; otherwise the build fails exactly when `new_helper` from depth 0 with the case count as limit finds no tree; a built tree has depth at most cases + 1, one child per bucket, and leads every case to its own payload; with the critical window or SubLow available, distinct cases always build |
| RadixTree.FindsAll | src/lib.rs:50 | completeness for all cases of the root subset at once |
| Scenarios.ExampleBuilds | src/lib.rs:268-306 | the twelve-case example of the test builds with the critical window available, within 13 levels, and its sampled keys reach their own labels |
| Scenarios.EmptyBuild | src/lib.rs:63-65 | no cases gives the default leaf |
| Scenarios.SingleBuild | src/lib.rs:67-69 | one case gives its case leaf |
| Scenarios.DuplicateRejected | src/lib.rs:41-48 | a repeated case value is rejected |
| Scenarios.ClzSubStuck | src/lib.rs:128-131 | 2 and 3 share their leading-zero count, so ClzSub never separates them and the depth bound is reached |
| Scenarios.ClzSubAloneFails | src/lib.rs:50 | with ClzSub alone the cases 2 and 3 build no tree, so the final unwrap would panic |

## Left out

- `Debug` implementations (`src/lib.rs:138-142`, `src/lib.rs:226-235`, `src/methods.rs:30-34`): presentation strings only.
- The test's graphviz writer and file output (`src/lib.rs:304-335`): I/O, and node ids are memory addresses.
- Trait-object dispatch (`Box<HashFn>`, `&HashMethod`): replaced by the closed datatypes `Hash` and `Method`.
- The 32-bit target configuration (`src/lib.rs:11-12`): `K` is fixed at 64.
- Panics are modelled as error values or preconditions. `Tree::new`'s assertions and final `unwrap` become `BuildError`. A negative bucket index or one past the children becomes `Lookup` returning `None`.
- Windows.CriticalWindow: full-width-window overflow is excluded only for subsets of at most 2^62 cases. A width-64 window overflows `1 << 64` in the source; the model computes the unbounded value.
- Discriminators.SubLowNew: does not model the overflow of `max + 1` when the subset spans the whole word, because `max` is an unbounded `nat`.
- Discriminators.HashOf: on keys outside the calibration set, `ClzSub` and `SubLow` underflow in the source. The model returns a negative number and promises nothing.
- RadixTree.NewHelper: requires `|cases| == |data|`; the source's `zip` silently truncates mismatched lists. It also requires duplicate-free cases when `ShiftMask` is among the strategies. With a repeated key, `critical_window` can meet a bucket whose keys are all equal, and its `u8` decrement underflows. `Tree::new` rejects duplicates before it calls `new_helper`.
- RadixTree.Depth: a branch with no children counts one level; the source's `max().unwrap()` would panic there. The builder never makes such a branch.
- RadixTree.Candidates: the source builds each strategy's children eagerly and then filters; the model states the same outcome per strategy. Evaluation order is not modelled.
- Scenarios.ExampleBuilds: states the result for any strategy list that contains `ShiftMask`, including the test's `[ShiftMask, ClzSub]`. It samples four of the twelve keys; `RadixTree.Build` covers all twelve. The test's `println!` of two `ClzSub` hashes is not modelled.
- Optimality of the chosen window beyond what the scan loop does is not claimed.

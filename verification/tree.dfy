/** The multiway radix search tree and its builder (`Tree::new`, `Tree::new_helper`,
    `Tree::depth`). At every node with two or more cases each strategy is calibrated to
    the node's subset, the subset is partitioned into the discriminator's buckets, every
    bucket is built one level deeper, and the shallowest complete candidate wins, the
    first one in strategy order on ties. Recursion is cut off once the depth exceeds the
    size of the root subset. */
module RadixTree {
  import opened Bits
  import opened Seqs
  import opened Wrappers
  import opened Discriminators

  /** What a leaf dispatches to: one case with its payload, or the default. */
  datatype Marker<T> = Case(key: Key, data: T) | Default

  /** A branch holds one child per bucket of its discriminator. */
  datatype Tree<T> = Branch(children: seq<Tree<T>>, h: Hash) | Leaf(marker: Marker<T>)

  /** `Tree::depth`: a leaf counts one level, a branch one more than its deepest child. A
      branch without children (where the source's `max().unwrap()` would panic) counts one;
      the builder never makes one, since every discriminator has at least one bucket. */
  function Depth<T>(t: Tree<T>): nat
  {
    match t
    case Leaf(_) => 1
    case Branch(children, _) =>
      if |children| == 0 then 1
      else 1 + MaxOf(seq(|children|, i requires 0 <= i < |children| => Depth(children[i])))
  }

  /** A branch is exactly one level deeper than its deepest child. */
  lemma DepthOfBranch<T>(children: seq<Tree<T>>, h: Hash, bound: nat)
    requires |children| > 0
    ensures forall i :: 0 <= i < |children| ==> Depth(children[i]) < Depth(Branch(children, h))
    ensures (forall i :: 0 <= i < |children| ==> Depth(children[i]) <= bound) ==> Depth(Branch(children, h)) <= bound + 1
  {
    var ds := seq(|children|, i requires 0 <= i < |children| => Depth(children[i]));
    assert forall i :: 0 <= i < |children| ==> ds[i] == Depth(children[i]);
  }

  /** Every branch has exactly as many children as its discriminator has buckets, so empty
      buckets are present as children rather than left out. */
  predicate Dense<T>(t: Tree<T>)
  {
    match t
    case Leaf(_) => true
    case Branch(children, h) =>
      |children| == SizeOf(h) && forall i :: 0 <= i < |children| ==> Dense(children[i])
  }

  /** Walk from the root, at each branch following the child its discriminator selects for
      `x`. `None` means the walk left the tree (a negative or too large bucket index),
      which the source would meet as a panic. */
  function Lookup<T>(t: Tree<T>, x: Key): Option<Marker<T>>
  {
    match t
    case Leaf(m) => Some(m)
    case Branch(children, h) =>
      var s := HashOf(h, x);
      if 0 <= s < |children| then Lookup(children[s], x) else None
  }

  /** The pairs of the subset whose key the discriminator sends to `slot`, cases and
      payloads kept together and in subset order (the `zip`, `filter` and `unzip` of
      `new_helper`). */
  function Bucket<T>(cases: seq<Key>, data: seq<T>, h: Hash, slot: nat): (b: (seq<Key>, seq<T>))
    requires |cases| == |data|
    ensures |b.0| == |b.1| <= |cases|
    ensures forall j :: 0 <= j < |b.0| ==> HashOf(h, b.0[j]) == slot
    decreases |cases|
  {
    if |cases| == 0 then ([], [])
    else
      var rest := Bucket(cases[1..], data[1..], h, slot);
      if HashOf(h, cases[0]) == slot then ([cases[0]] + rest.0, [data[0]] + rest.1) else rest
  }

  /** Bucketing keeps only keys of the subset, so a duplicate-free subset has
      duplicate-free buckets. */
  lemma {:induction false} BucketDistinct<T>(cases: seq<Key>, data: seq<T>, h: Hash, slot: nat)
    requires |cases| == |data|
    ensures forall j :: 0 <= j < |Bucket(cases, data, h, slot).0| ==> Bucket(cases, data, h, slot).0[j] in cases
    ensures Distinct(cases) ==> Distinct(Bucket(cases, data, h, slot).0)
    decreases |cases|
  {
    if |cases| > 0 {
      BucketDistinct(cases[1..], data[1..], h, slot);
      var rest := Bucket(cases[1..], data[1..], h, slot);
      var b := Bucket(cases, data, h, slot);
      if HashOf(h, cases[0]) == slot {
        assert b.0 == [cases[0]] + rest.0;
        assert b.0[1..] == rest.0;
        DistinctCons(cases);
        DistinctCons(b.0);
      }
    }
  }

  /** A pair whose key hashes to `slot` is in the bucket, with its own payload. */
  lemma {:induction false} BucketKeeps<T>(cases: seq<Key>, data: seq<T>, h: Hash, slot: nat, i: nat)
    requires |cases| == |data| && i < |cases| && HashOf(h, cases[i]) == slot
    ensures exists j :: 0 <= j < |Bucket(cases, data, h, slot).0| &&
                        Bucket(cases, data, h, slot).0[j] == cases[i] && Bucket(cases, data, h, slot).1[j] == data[i]
    decreases |cases|
  {
    var b := Bucket(cases, data, h, slot);
    if i == 0 {
      assert b.0[0] == cases[0] && b.1[0] == data[0];
    } else {
      BucketKeeps(cases[1..], data[1..], h, slot, i - 1);
      var rest := Bucket(cases[1..], data[1..], h, slot);
      var j :| 0 <= j < |rest.0| && rest.0[j] == cases[i] && rest.1[j] == data[i];
      if HashOf(h, cases[0]) == slot {
        assert b.0[j + 1] == cases[i] && b.1[j + 1] == data[i];
      } else {
        assert b.0[j] == cases[i] && b.1[j] == data[i];
      }
    }
  }

  /** Every pair of the bucket is a pair of the subset: payloads never change keys. */
  lemma {:induction false} BucketPairsFromSubset<T>(cases: seq<Key>, data: seq<T>, h: Hash, slot: nat, j: nat)
    requires |cases| == |data| && j < |Bucket(cases, data, h, slot).0|
    ensures exists i :: 0 <= i < |cases| &&
                        cases[i] == Bucket(cases, data, h, slot).0[j] && data[i] == Bucket(cases, data, h, slot).1[j]
    decreases |cases|
  {
    var b := Bucket(cases, data, h, slot);
    var rest := Bucket(cases[1..], data[1..], h, slot);
    if HashOf(h, cases[0]) == slot {
      if j == 0 {
        assert cases[0] == b.0[0] && data[0] == b.1[0];
      } else {
        BucketPairsFromSubset(cases[1..], data[1..], h, slot, j - 1);
        var i :| 0 <= i < |cases| - 1 && cases[1..][i] == rest.0[j - 1] && data[1..][i] == rest.1[j - 1];
        assert cases[i + 1] == b.0[j] && data[i + 1] == b.1[j];
      }
    } else {
      BucketPairsFromSubset(cases[1..], data[1..], h, slot, j);
      var i :| 0 <= i < |cases| - 1 && cases[1..][i] == rest.0[j] && data[1..][i] == rest.1[j];
      assert cases[i + 1] == b.0[j] && data[i + 1] == b.1[j];
    }
  }

  /** Bucketing a concatenation buckets each part: the filter keeps subset order. */
  lemma {:induction false} BucketAppend<T>(c1: seq<Key>, d1: seq<T>, c2: seq<Key>, d2: seq<T>, h: Hash, slot: nat)
    requires |c1| == |d1| && |c2| == |d2|
    ensures Bucket(c1 + c2, d1 + d2, h, slot).0 == Bucket(c1, d1, h, slot).0 + Bucket(c2, d2, h, slot).0
    ensures Bucket(c1 + c2, d1 + d2, h, slot).1 == Bucket(c1, d1, h, slot).1 + Bucket(c2, d2, h, slot).1
    decreases |c1|
  {
    if |c1| == 0 {
      assert c1 + c2 == c2 && d1 + d2 == d2;
    } else {
      var c, d := c1 + c2, d1 + d2;
      assert c[1..] == c1[1..] + c2;
      assert d[1..] == d1[1..] + d2;
      BucketAppend(c1[1..], d1[1..], c2, d2, h, slot);
      var r1 := Bucket(c1[1..], d1[1..], h, slot);
      var r2 := Bucket(c2, d2, h, slot);
      var r := Bucket(c[1..], d[1..], h, slot);
      assert r.0 == r1.0 + r2.0 && r.1 == r1.1 + r2.1;
      if HashOf(h, c1[0]) == slot {
        assert Bucket(c, d, h, slot) == ([c1[0]] + r.0, [d1[0]] + r.1);
        assert Bucket(c1, d1, h, slot) == ([c1[0]] + r1.0, [d1[0]] + r1.1);
        assert [c1[0]] + (r1.0 + r2.0) == ([c1[0]] + r1.0) + r2.0;
        assert [d1[0]] + (r1.1 + r2.1) == ([d1[0]] + r1.1) + r2.1;
      } else {
        assert Bucket(c, d, h, slot) == r;
        assert Bucket(c1, d1, h, slot) == r1;
      }
    }
  }

  /** A bucket misses every key hashed elsewhere, so it is strictly smaller than the subset
      as soon as one key of the subset hashes to another slot. */
  lemma {:induction false} BucketShrinks<T>(cases: seq<Key>, data: seq<T>, h: Hash, slot: nat, i: nat)
    requires |cases| == |data| && i < |cases| && HashOf(h, cases[i]) != slot
    ensures |Bucket(cases, data, h, slot).0| < |cases|
    decreases |cases|
  {
    if i > 0 {
      BucketShrinks(cases[1..], data[1..], h, slot, i - 1);
    }
  }

  /** A discriminator that never sends two distinct keys to one slot, as `SubLow` does,
      leaves at most one case in each bucket. */
  lemma {:induction false} BucketOfInjective<T>(cases: seq<Key>, data: seq<T>, h: Hash, slot: nat)
    requires |cases| == |data| && Distinct(cases)
    requires forall i, j :: 0 <= i < |cases| && 0 <= j < |cases| && HashOf(h, cases[i]) == HashOf(h, cases[j]) ==> cases[i] == cases[j]
    ensures |Bucket(cases, data, h, slot).0| <= 1
  {
    var b := Bucket(cases, data, h, slot).0;
    BucketDistinct(cases, data, h, slot);
    forall j, k | 0 <= j < |b| && 0 <= k < |b|
      ensures b[j] == b[k]
    {
      var i :| 0 <= i < |cases| && cases[i] == b[j];
      var i' :| 0 <= i' < |cases| && cases[i'] == b[k];
    }
    DistinctConstant(b);
  }

  /** One round of the selection loop: a complete candidate replaces the best so far when
      there is none yet or when it is strictly shallower. */
  function Step<T>(best: Option<Tree<T>>, c: Option<Tree<T>>): Option<Tree<T>>
  {
    if c.Some? && (best.None? || Depth(best.value) > Depth(c.value)) then c else best
  }

  /** The selection loop of `new_helper` over the candidates of the strategies, in strategy
      order. It yields one of the candidates, and yields nothing only when no strategy
      produced a complete candidate. */
  function Pick<T>(cands: seq<Option<Tree<T>>>): (r: Option<Tree<T>>)
    ensures r.Some? ==> exists k :: 0 <= k < |cands| && cands[k] == r
    ensures r.None? <==> forall k :: 0 <= k < |cands| ==> cands[k].None?
    decreases |cands|
  {
    if |cands| == 0 then None
    else
      var prefix := cands[..|cands| - 1];
      assert forall k :: 0 <= k < |prefix| ==> prefix[k] == cands[k];
      Step(Pick(prefix), cands[|cands| - 1])
  }

  /** Candidate `k` is complete, no complete candidate is shallower, and every earlier
      complete candidate is strictly deeper. */
  ghost predicate FirstMinimal<T>(cands: seq<Option<Tree<T>>>, k: int)
  {
    && 0 <= k < |cands| && cands[k].Some?
    && forall j :: 0 <= j < |cands| && cands[j].Some? ==>
         Depth(cands[k].value) <= Depth(cands[j].value) &&
         (j < k ==> Depth(cands[k].value) < Depth(cands[j].value))
  }

  /** The selection loop returns the first candidate of minimal depth. */
  lemma {:induction false} PickIsFirstMinimal<T>(cands: seq<Option<Tree<T>>>)
    ensures Pick(cands).Some? ==> exists k :: FirstMinimal(cands, k) && Pick(cands) == cands[k]
    decreases |cands|
  {
    if |cands| > 0 {
      var n := |cands| - 1;
      var prefix := cands[..n];
      PickIsFirstMinimal(prefix);
      var best := Pick(prefix);
      var c := cands[n];
      if best.None? {
        if c.Some? {
          assert forall j :: 0 <= j < n ==> prefix[j] == cands[j];
          FirstMinimalAtEnd(cands);
        }
      } else {
        var k :| FirstMinimal(prefix, k) && best == prefix[k];
        if c.Some? && Depth(best.value) > Depth(c.value) {
          forall j | 0 <= j < n && cands[j].Some?
            ensures Depth(c.value) < Depth(cands[j].value)
          {
            assert prefix[j] == cands[j];
          }
          FirstMinimalAtEnd(cands);
        } else {
          FirstMinimalKept(cands, k);
        }
      }
    }
  }

  /** The last candidate is the first minimal one when every earlier complete candidate is
      strictly deeper. */
  lemma FirstMinimalAtEnd<T>(cands: seq<Option<Tree<T>>>)
    requires |cands| > 0 && cands[|cands| - 1].Some?
    requires forall j :: 0 <= j < |cands| - 1 && cands[j].Some? ==>
               Depth(cands[|cands| - 1].value) < Depth(cands[j].value)
    ensures FirstMinimal(cands, |cands| - 1)
  {
  }

  /** A first minimal candidate of the prefix stays first minimal when the last candidate is
      missing or not strictly shallower. */
  lemma FirstMinimalKept<T>(cands: seq<Option<Tree<T>>>, k: int)
    requires |cands| > 0 && FirstMinimal(cands[..|cands| - 1], k)
    requires var c := cands[|cands| - 1];
             c.None? || Depth(cands[..|cands| - 1][k].value) <= Depth(c.value)
    ensures FirstMinimal(cands, k)
  {
    var n := |cands| - 1;
    var prefix := cands[..n];
    forall j | 0 <= j < |cands| && cands[j].Some?
      ensures Depth(cands[k].value) <= Depth(cands[j].value)
      ensures j < k ==> Depth(cands[k].value) < Depth(cands[j].value)
    {
      if j < n {
        assert prefix[j] == cands[j];
      }
    }
  }

  /** There is at most one first minimal candidate. */
  lemma FirstMinimalUnique<T>(cands: seq<Option<Tree<T>>>, k1: int, k2: int)
    requires FirstMinimal(cands, k1) && FirstMinimal(cands, k2)
    ensures k1 == k2
  {
  }

  /** Remaining recursion budget: `new_helper` gives up once `depth > max_depth`. */
  function Budget(depth: nat, maxDepth: nat): nat
  {
    if depth <= maxDepth then maxDepth - depth + 1 else 0
  }

  /** `Tree::new_helper`. Past the depth limit it fails; an empty subset is a default leaf
      and a single case is a case leaf; otherwise the first shallowest complete candidate of
      the strategies is returned. A tree built at depth `d` fits in the remaining
      `max_depth - d + 1` levels and is dense. */
  function NewHelper<T>(depth: nat, maxDepth: nat, cases: seq<Key>, data: seq<T>, methods: seq<Method>): (r: Option<Tree<T>>)
    requires |cases| == |data|
    requires ShiftMask in methods ==> Distinct(cases)
    ensures depth > maxDepth ==> r.None?
    ensures depth <= maxDepth && |cases| == 0 ==> r == Some(Leaf(Default))
    ensures depth <= maxDepth && |cases| == 1 ==> r == Some(Leaf(Case(cases[0], data[0])))
    ensures r.Some? ==> depth + Depth(r.value) <= maxDepth + 1
    ensures r.Some? ==> Dense(r.value)
    decreases Budget(depth, maxDepth), 4
  {
    if depth > maxDepth then None
    else if |cases| == 0 then Some(Leaf(Default))
    else if |cases| == 1 then Some(Leaf(Case(cases[0], data[0])))
    else Pick(Candidates(depth, maxDepth, cases, data, methods))
  }

  /** The candidates of all strategies at one node, in strategy order. */
  function Candidates<T>(depth: nat, maxDepth: nat, cases: seq<Key>, data: seq<T>, methods: seq<Method>): (cands: seq<Option<Tree<T>>>)
    requires depth <= maxDepth && |cases| == |data| && |cases| >= 2
    requires ShiftMask in methods ==> Distinct(cases)
    ensures |cands| == |methods|
    ensures forall k :: 0 <= k < |methods| ==>
              Calibratable(methods[k], cases) && cands[k] == Candidate(depth, maxDepth, cases, data, methods, methods[k])
    decreases Budget(depth, maxDepth), 3
  {
    assert ShiftMask in methods ==> cases[0] != cases[1];
    seq(|methods|, k requires 0 <= k < |methods| => Candidate(depth, maxDepth, cases, data, methods, methods[k]))
  }

  /** The child for bucket `slot`: the bucket's pairs built one level deeper. */
  function Child<T>(depth: nat, maxDepth: nat, cases: seq<Key>, data: seq<T>, methods: seq<Method>, f: Hash, slot: nat): Option<Tree<T>>
    requires depth <= maxDepth && |cases| == |data|
    requires ShiftMask in methods ==> Distinct(cases)
    decreases Budget(depth, maxDepth), 0
  {
    BucketDistinct(cases, data, f, slot);
    var b := Bucket(cases, data, f, slot);
    NewHelper(depth + 1, maxDepth, b.0, b.1, methods)
  }

  /** Some bucket of the discriminator `f` cannot be built one level deeper. */
  predicate SomeChildFails<T>(depth: nat, maxDepth: nat, cases: seq<Key>, data: seq<T>, methods: seq<Method>, f: Hash)
    requires depth <= maxDepth && |cases| == |data|
    requires ShiftMask in methods ==> Distinct(cases)
    decreases Budget(depth, maxDepth), 1
  {
    exists s: nat :: s < SizeOf(f) && Child(depth, maxDepth, cases, data, methods, f, s).None?
  }

  /** The branch one strategy yields at a node: its discriminator calibrated to the subset,
      one child per bucket, child `s` built one level deeper from exactly the pairs whose
      key hashes to `s`. The strategy is discarded when any child cannot be built. */
  function Candidate<T>(depth: nat, maxDepth: nat, cases: seq<Key>, data: seq<T>, methods: seq<Method>, m: Method): (r: Option<Tree<T>>)
    requires depth <= maxDepth && |cases| == |data| && |cases| >= 2
    requires ShiftMask in methods ==> Distinct(cases)
    requires m in methods && Calibratable(m, cases)
    ensures r.Some? ==> r.value.Branch? && r.value.h == Instantiate(m, cases)
    ensures r.Some? ==> |r.value.children| == SizeOf(r.value.h)
    ensures r.Some? ==> forall s :: 0 <= s < |r.value.children| ==>
              Child(depth, maxDepth, cases, data, methods, r.value.h, s) == Some(r.value.children[s])
    ensures r.None? <==> SomeChildFails(depth, maxDepth, cases, data, methods, Instantiate(m, cases))
    ensures r.Some? ==> depth + Depth(r.value) <= maxDepth + 1 && Dense(r.value)
    decreases Budget(depth, maxDepth), 2
  {
    var f := Instantiate(m, cases);
    var children := seq(SizeOf(f), s requires 0 <= s < SizeOf(f) => Child(depth, maxDepth, cases, data, methods, f, s));
    assert forall s :: 0 <= s < |children| ==> children[s] == Child(depth, maxDepth, cases, data, methods, f, s);
    if SomeChildFails(depth, maxDepth, cases, data, methods, f) then None
    else
      var built := seq(|children|, s requires 0 <= s < |children| => children[s].value);
      DepthOfBranch(built, f, maxDepth - depth);
      Some(Branch(built, f))
  }

  /** A tree built for two or more cases is the candidate of one of the strategies. */
  lemma NewHelperPicks<T>(depth: nat, maxDepth: nat, cases: seq<Key>, data: seq<T>, methods: seq<Method>) returns (m: Method)
    requires |cases| == |data| && (ShiftMask in methods ==> Distinct(cases))
    requires depth <= maxDepth && |cases| >= 2
    requires NewHelper(depth, maxDepth, cases, data, methods).Some?
    ensures m in methods && Calibratable(m, cases)
    ensures Candidate(depth, maxDepth, cases, data, methods, m) == NewHelper(depth, maxDepth, cases, data, methods)
  {
    var cands := Candidates(depth, maxDepth, cases, data, methods);
    var k :| 0 <= k < |cands| && cands[k] == NewHelper(depth, maxDepth, cases, data, methods);
    m := methods[k];
  }

  /** A strategy whose every bucket can be built one level deeper yields a candidate, and a
      candidate makes the tree of the node exist. */
  lemma CandidateBuilds<T>(depth: nat, maxDepth: nat, cases: seq<Key>, data: seq<T>, methods: seq<Method>, m: Method)
    requires |cases| == |data| && (ShiftMask in methods ==> Distinct(cases))
    requires depth <= maxDepth && |cases| >= 2
    requires m in methods && Calibratable(m, cases)
    requires !SomeChildFails(depth, maxDepth, cases, data, methods, Instantiate(m, cases))
    ensures NewHelper(depth, maxDepth, cases, data, methods).Some?
  {
    var cands := Candidates(depth, maxDepth, cases, data, methods);
    var k :| 0 <= k < |methods| && methods[k] == m;
    assert cands[k].Some?;
  }

  /** In a tree built for two or more cases, the key of case `i` selects a child, and that
      child is its bucket built one level deeper. */
  lemma ChildOfKey<T>(depth: nat, maxDepth: nat, cases: seq<Key>, data: seq<T>, methods: seq<Method>, i: nat)
      returns (f: Hash, s: nat)
    requires |cases| == |data| && Distinct(cases) && i < |cases| && |cases| >= 2
    requires NewHelper(depth, maxDepth, cases, data, methods).Some?
    ensures depth < maxDepth && s == HashOf(f, cases[i])
    ensures NewHelper(depth, maxDepth, cases, data, methods).value.Branch?
    ensures NewHelper(depth, maxDepth, cases, data, methods).value.h == f
    ensures s < |NewHelper(depth, maxDepth, cases, data, methods).value.children|
    ensures Child(depth, maxDepth, cases, data, methods, f, s) == Some(NewHelper(depth, maxDepth, cases, data, methods).value.children[s])
  {
    var t := NewHelper(depth, maxDepth, cases, data, methods).value;
    var m := NewHelperPicks(depth, maxDepth, cases, data, methods);
    f := Instantiate(m, cases);
    var h := HashOf(f, cases[i]);
    assert 0 <= h < |t.children|;
    s := h;
  }

  /** Completeness: a tree built from a duplicate-free subset leads every key of the subset
      to the case leaf holding that key and its own payload. */
  lemma {:induction false} NewHelperFindsEveryCase<T>(depth: nat, maxDepth: nat, cases: seq<Key>, data: seq<T>, methods: seq<Method>, i: nat)
    requires |cases| == |data| && Distinct(cases) && i < |cases|
    requires NewHelper(depth, maxDepth, cases, data, methods).Some?
    ensures Lookup(NewHelper(depth, maxDepth, cases, data, methods).value, cases[i]) == Some(Case(cases[i], data[i]))
    decreases Budget(depth, maxDepth)
  {
    if |cases| >= 2 {
      var t := NewHelper(depth, maxDepth, cases, data, methods).value;
      var f, s := ChildOfKey(depth, maxDepth, cases, data, methods, i);
      var b := Bucket(cases, data, f, s);
      BucketKeeps(cases, data, f, s, i);
      var j :| 0 <= j < |b.0| && b.0[j] == cases[i] && b.1[j] == data[i];
      BucketDistinct(cases, data, f, s);
      NewHelperFindsEveryCase(depth + 1, maxDepth, b.0, b.1, methods, j);
    }
  }

  /** With the critical-window strategy available, a duplicate-free subset always yields a
      tree once the budget leaves one level per case: every bucket of the critical window is
      strictly smaller than the subset. */
  lemma {:induction false} ShiftMaskAlwaysBuilds<T>(depth: nat, maxDepth: nat, cases: seq<Key>, data: seq<T>, methods: seq<Method>)
    requires |cases| == |data| && Distinct(cases) && ShiftMask in methods
    requires depth <= maxDepth && depth + |cases| <= maxDepth + 1
    ensures NewHelper(depth, maxDepth, cases, data, methods).Some?
    decreases |cases|, 1
  {
    if |cases| >= 2 {
      assert cases[0] != cases[1];
      var f := Instantiate(ShiftMask, cases);
      forall s: nat | s < SizeOf(f)
        ensures Child(depth, maxDepth, cases, data, methods, f, s).Some?
      {
        ShiftMaskChildBuilds(depth, maxDepth, cases, data, methods, s);
      }
      CandidateBuilds(depth, maxDepth, cases, data, methods, ShiftMask);
    }
  }

  /** Every bucket of the critical window misses a key of the subset. */
  lemma ShiftMaskBucketShrinks<T>(cases: seq<Key>, data: seq<T>, slot: nat)
    requires |cases| == |data| && HasTwoDistinct(cases)
    ensures |Bucket(cases, data, Instantiate(ShiftMask, cases), slot).0| < |cases|
  {
    var f := Instantiate(ShiftMask, cases);
    ShiftMaskSplits(cases);
    var i, j :| 0 <= i < |cases| && 0 <= j < |cases| && HashOf(f, cases[i]) != HashOf(f, cases[j]);
    if HashOf(f, cases[i]) != slot {
      BucketShrinks(cases, data, f, slot, i);
    } else {
      BucketShrinks(cases, data, f, slot, j);
    }
  }

  /** One step of the induction: a bucket of the critical window is built one level deeper. */
  lemma {:induction false} ShiftMaskChildBuilds<T>(depth: nat, maxDepth: nat, cases: seq<Key>, data: seq<T>, methods: seq<Method>, slot: nat)
    requires |cases| == |data| && Distinct(cases) && ShiftMask in methods && |cases| >= 2
    requires depth <= maxDepth && depth + |cases| <= maxDepth + 1
    ensures HasTwoDistinct(cases)
    ensures Child(depth, maxDepth, cases, data, methods, Instantiate(ShiftMask, cases), slot).Some?
    decreases |cases|, 0
  {
    assert cases[0] != cases[1];
    var f := Instantiate(ShiftMask, cases);
    var b := Bucket(cases, data, f, slot);
    ShiftMaskBucketShrinks(cases, data, slot);
    BucketDistinct(cases, data, f, slot);
    assert |b.0| == |b.1| && |b.0| < |cases|;
    assert depth + 1 <= maxDepth;
    ShiftMaskAlwaysBuilds(depth + 1, maxDepth, b.0, b.1, methods);
    assert NewHelper(depth + 1, maxDepth, b.0, b.1, methods).Some?;
  }

  /** A case leaf reached by any key holds a pair of the subset the tree was built from:
      the builder never invents or mixes up a case. */
  lemma {:induction false} NewHelperLeavesFromSubset<T>(depth: nat, maxDepth: nat, cases: seq<Key>, data: seq<T>, methods: seq<Method>, x: Key)
    requires |cases| == |data| && (ShiftMask in methods ==> Distinct(cases))
    requires NewHelper(depth, maxDepth, cases, data, methods).Some?
    requires Lookup(NewHelper(depth, maxDepth, cases, data, methods).value, x).Some?
    ensures var mk := Lookup(NewHelper(depth, maxDepth, cases, data, methods).value, x).value;
            mk.Case? ==> exists i :: 0 <= i < |cases| && cases[i] == mk.key && data[i] == mk.data
    decreases Budget(depth, maxDepth)
  {
    var t := NewHelper(depth, maxDepth, cases, data, methods).value;
    if |cases| >= 2 {
      var m := NewHelperPicks(depth, maxDepth, cases, data, methods);
      var f := Instantiate(m, cases);
      var s := HashOf(f, x);
      assert 0 <= s < |t.children|;
      var b := Bucket(cases, data, f, s);
      assert Child(depth, maxDepth, cases, data, methods, f, s) == Some(t.children[s]);
      BucketDistinct(cases, data, f, s);
      NewHelperLeavesFromSubset(depth + 1, maxDepth, b.0, b.1, methods, x);
      var mk := Lookup(t, x).value;
      if mk.Case? {
        var j :| 0 <= j < |b.0| && b.0[j] == mk.key && b.1[j] == mk.data;
        BucketPairsFromSubset(cases, data, f, s, j);
      }
    } else if |cases| == 1 {
      assert cases[0] == Lookup(t, x).value.key;
    }
  }

  /** `SubLow` never sends two keys of the subset to one bucket, so with it available a
      duplicate-free subset always yields a tree of at most two levels below `depth`. */
  lemma SubLowAlwaysBuilds<T>(depth: nat, maxDepth: nat, cases: seq<Key>, data: seq<T>, methods: seq<Method>)
    requires |cases| == |data| && Distinct(cases) && SubLow in methods
    requires depth <= maxDepth && (|cases| >= 2 ==> depth < maxDepth)
    ensures NewHelper(depth, maxDepth, cases, data, methods).Some?
  {
    if |cases| >= 2 {
      var f := Instantiate(SubLow, cases);
      assert f == SubLowNew(cases);
      forall s: nat | s < SizeOf(f)
        ensures Child(depth, maxDepth, cases, data, methods, f, s).Some?
      {
        BucketOfInjective(cases, data, f, s);
        BucketDistinct(cases, data, f, s);
      }
      CandidateBuilds(depth, maxDepth, cases, data, methods, SubLow);
    }
  }

  /** Why `Tree::new` gives up: no strategies, duplicate cases, or no tree within the depth
      bound (the source panics in each case). */
  datatype BuildError = NoMethods | DuplicateCases | NoTree

  /** `Tree::new`: reject an empty strategy list, reject the subset when sorting and
      deduplicating it loses a key, otherwise build from depth 0 with the number of cases as
      the depth limit. */
  function Build<T>(cases: seq<Key>, data: seq<T>, methods: seq<Method>): (r: Result<Tree<T>, BuildError>)
    requires |cases| == |data|
    ensures r == Failure(NoMethods) <==> |methods| == 0
    ensures r == Failure(DuplicateCases) <==> |methods| > 0 && !Distinct(cases)
    ensures r.Success? ==> Distinct(cases) && Depth(r.value) <= |cases| + 1 && Dense(r.value)
    ensures r.Success? ==> forall i :: 0 <= i < |cases| ==> Lookup(r.value, cases[i]) == Some(Case(cases[i], data[i]))
    ensures |methods| > 0 && Distinct(cases) && (ShiftMask in methods || SubLow in methods) ==> r.Success?
    ensures |methods| > 0 && Distinct(cases) ==> (r == Failure(NoTree) <==> NewHelper(0, |cases|, cases, data, methods).None?)
  {
    DistinctCountIsLength(cases);
    if |methods| == 0 then Failure(NoMethods)
    else if DistinctCount(cases) != |cases| then Failure(DuplicateCases)
    else
      var t := NewHelper(0, |cases|, cases, data, methods);
      FindsAll(|cases|, cases, data, methods);
      if ShiftMask in methods then ShiftMaskAlwaysBuilds(0, |cases|, cases, data, methods); OrNoTree(t)
      else if SubLow in methods then SubLowAlwaysBuilds(0, |cases|, cases, data, methods); OrNoTree(t)
      else OrNoTree(t)
  }

  /** `unwrap` on the outcome of the build: no tree is the `NoTree` failure. */
  function OrNoTree<T>(t: Option<Tree<T>>): (r: Result<Tree<T>, BuildError>)
    ensures r.Success? <==> t.Some?
    ensures r.Success? ==> r.value == t.value
    ensures r.Failure? ==> r.error == NoTree
  {
    if t.Some? then Success(t.value) else Failure(NoTree)
  }

  /** Completeness of `Tree::new`'s build, for every case at once. */
  lemma FindsAll<T>(maxDepth: nat, cases: seq<Key>, data: seq<T>, methods: seq<Method>)
    requires |cases| == |data| && Distinct(cases)
    ensures NewHelper(0, maxDepth, cases, data, methods).Some? ==>
              forall i :: 0 <= i < |cases| ==>
                Lookup(NewHelper(0, maxDepth, cases, data, methods).value, cases[i]) == Some(Case(cases[i], data[i]))
  {
    if NewHelper(0, maxDepth, cases, data, methods).Some? {
      forall i | 0 <= i < |cases|
        ensures Lookup(NewHelper(0, maxDepth, cases, data, methods).value, cases[i]) == Some(Case(cases[i], data[i]))
      {
        NewHelperFindsEveryCase(0, maxDepth, cases, data, methods, i);
      }
    }
  }
}

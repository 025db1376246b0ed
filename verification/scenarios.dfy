/** Concrete instances of the builder: the multiway-branch example of the repository's own test,
    the trivial subsets, the rejected inputs, and a subset the `ClzSub` strategy alone can
    never split. */
module Scenarios {
  import opened Bits
  import opened Seqs
  import opened Wrappers
  import opened Discriminators
  import opened RadixTree

  /** The twelve case values of the `it_works` test. */
  function ExampleKeys(): (s: seq<Key>)
    ensures |s| == 12
  {
    [8, 16, 33, 37, 41, 60, 144, 264, 291, 1032, 2048, 2082]
  }

  /** Their labels: four target functions. */
  function ExampleLabels(): (s: seq<string>)
    ensures |s| == 12
  {
    ["function 1", "function 1", "function 1", "function 1", "function 1", "function 1",
     "function 2", "function 2", "function 2",
     "function 3",
     "function 4", "function 4"]
  }

  /** Building the test's switch with any strategy list that includes the critical window
      (the test uses it followed by the leading-zero strategy) succeeds within 13 levels,
      and every case value reaches its own label. */
  lemma ExampleBuilds(methods: seq<Method>)
    requires ShiftMask in methods
    ensures var r := Build(ExampleKeys(), ExampleLabels(), methods);
            && r.Success?
            && Depth(r.value) <= 13
            && Lookup(r.value, 41) == Some(Case(41, "function 1"))
            && Lookup(r.value, 264) == Some(Case(264, "function 2"))
            && Lookup(r.value, 1032) == Some(Case(1032, "function 3"))
            && Lookup(r.value, 2082) == Some(Case(2082, "function 4"))
  {
    ExampleKeysDistinct();
    var r := Build(ExampleKeys(), ExampleLabels(), methods);
    ExampleLookups(r.value);
  }

  /** A tree that leads every example key to its label leads the four sampled keys there. */
  lemma ExampleLookups(t: Tree<string>)
    requires forall k :: 0 <= k < |ExampleKeys()| ==> Lookup(t, ExampleKeys()[k]) == Some(Case(ExampleKeys()[k], ExampleLabels()[k]))
    ensures Lookup(t, 41) == Some(Case(41, "function 1"))
    ensures Lookup(t, 264) == Some(Case(264, "function 2"))
    ensures Lookup(t, 1032) == Some(Case(1032, "function 3"))
    ensures Lookup(t, 2082) == Some(Case(2082, "function 4"))
  {
    ExampleLookup(t, 4);
    ExampleLookup(t, 7);
    ExampleLookup(t, 9);
    ExampleLookup(t, 11);
  }

  lemma ExampleLookup(t: Tree<string>, i: nat)
    requires i < 12
    requires forall k :: 0 <= k < |ExampleKeys()| ==> Lookup(t, ExampleKeys()[k]) == Some(Case(ExampleKeys()[k], ExampleLabels()[k]))
    ensures Lookup(t, ExampleKeys()[i]) == Some(Case(ExampleKeys()[i], ExampleLabels()[i]))
  {
  }

  lemma ExampleKeysDistinct()
    ensures Distinct(ExampleKeys())
  {
    var keys := ExampleKeys();
    assert forall i :: 0 < i < |keys| ==> keys[i - 1] < keys[i];
    IncreasingDistinct(keys);
  }

  /** No cases: the tree is the default leaf. */
  lemma EmptyBuild<T>(methods: seq<Method>)
    requires |methods| > 0
    ensures Build<T>([], [], methods) == Success(Leaf(Default))
  {
  }

  /** One case: the tree is that case's leaf. */
  lemma SingleBuild<T>(x: Key, d: T, methods: seq<Method>)
    requires |methods| > 0
    ensures Build([x], [d], methods) == Success(Leaf(Case(x, d)))
  {
    assert Distinct([x]);
  }

  /** A repeated case value is rejected before any tree is built. */
  lemma DuplicateRejected<T>(x: Key, d: T, e: T, methods: seq<Method>)
    requires |methods| > 0
    ensures Build([x, x], [d, e], methods) == Failure(DuplicateCases)
  {
    assert !Distinct([x, x]) by {
      assert [x, x][0] == [x, x][1];
    }
  }

  /** 2 and 3 have the same number of leading zeros, so the leading-zero discriminator puts
      both in one bucket at every level and the depth bound is reached. */
  lemma {:induction false} ClzSubStuck<T>(depth: nat, data: seq<T>)
    requires |data| == 2
    ensures NewHelper(depth, 2, [2, 3], data, [ClzSub]).None?
    decreases 3 - depth
  {
    var cases: seq<Key> := [2, 3];
    if depth <= 2 {
      var f := Instantiate(ClzSub, cases);
      ClzSubOnTwoThree();
      BucketOfTwoThree(data, f);
      ClzSubStuck(depth + 1, data);
      assert Child(depth, 2, cases, data, [ClzSub], f, 0).None?;
      assert SomeChildFails(depth, 2, cases, data, [ClzSub], f);
      var cands := Candidates(depth, 2, cases, data, [ClzSub]);
      assert cands[0].None?;
    }
  }

  /** 2 and 3 both have 62 leading zeros, so `ClzSub` calibrates to a single bucket. */
  lemma ClzSubOnTwoThree()
    ensures SizeOf(Instantiate(ClzSub, [2, 3])) == 1
    ensures HashOf(Instantiate(ClzSub, [2, 3]), 2) == 0 && HashOf(Instantiate(ClzSub, [2, 3]), 3) == 0
  {
    var cases: seq<Key> := [2, 3];
    assert BitLen(2) == 2 && BitLen(3) == 2 by {
      assert BitLen(1) == 1;
    }
    var f := Instantiate(ClzSub, cases);
    assert HashOf(f, cases[0]) == HashOf(f, cases[1]);
  }

  /** A discriminator that sends both 2 and 3 to bucket 0 keeps the whole subset there. */
  lemma BucketOfTwoThree<T>(data: seq<T>, f: Hash)
    requires |data| == 2
    requires HashOf(f, 2) == 0 && HashOf(f, 3) == 0
    ensures Bucket([2, 3], data, f, 0) == ([2, 3], data)
  {
    var cases: seq<Key> := [2, 3];
    var tail: seq<Key> := [3];
    assert cases[1..] == tail && tail[1..] == [];
    assert data[1..] == [data[1]] && data[1..][1..] == [];
    assert Bucket(tail[1..], data[1..][1..], f, 0) == ([], []);
    assert tail[0] == 3 && HashOf(f, tail[0]) == 0;
    assert data[1..][0] == data[1];
    assert Bucket(tail, data[1..], f, 0) == ([tail[0]] + [], [data[1..][0]] + []);
    assert [tail[0]] + [] == tail && [data[1..][0]] + [] == data[1..];
    assert Bucket(cases, data, f, 0) == ([cases[0]] + tail, [data[0]] + data[1..]);
    assert [cases[0]] + tail == cases && [data[0]] + data[1..] == data;
  }

  /** So `Tree::new` with `ClzSub` alone fails on the cases 2 and 3. */
  lemma ClzSubAloneFails<T>(d: T, e: T)
    ensures Build([2, 3], [d, e], [ClzSub]) == Failure(NoTree)
  {
    ClzSubStuck(0, [d, e]);
  }
}

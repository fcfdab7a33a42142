/**
 * Sequence operations shared by the client scripts: `Array.prototype.filter`,
 * `flatMap`, and the grouping that `d3.groups`, `d3.rollup` and `d3.rollups`
 * perform (a Map from key to the members with that key, whose keys are in
 * order of first appearance and whose members keep the input order).
 */
module Seqs {

  /** `Array.prototype.filter`. */
  function Filter<T>(xs: seq<T>, p: T -> bool): seq<T>
    decreases |xs|
  {
    if xs == [] then [] else Filter(xs[..|xs| - 1], p) + (if p(xs[|xs| - 1]) then [xs[|xs| - 1]] else [])
  }

  /** Filtering a concatenation filters each part and keeps their order. */
  lemma {:induction false} FilterAppend<T>(a: seq<T>, b: seq<T>, p: T -> bool)
    ensures Filter(a + b, p) == Filter(a, p) + Filter(b, p)
    decreases |b|
  {
    if b == [] {
      assert a + b == a;
    } else {
      var b' := b[..|b| - 1];
      FilterAppend(a, b', p);
      assert (a + b)[..|a + b| - 1] == a + b';
    }
  }

  /** Filtering keeps exactly the elements that satisfy the predicate, each as often as it occurs. */
  lemma {:induction false} FilterMultiset<T>(xs: seq<T>, p: T -> bool)
    ensures forall x :: multiset(Filter(xs, p))[x] == if p(x) then multiset(xs)[x] else 0
    decreases |xs|
  {
    if xs != [] {
      var init := xs[..|xs| - 1];
      FilterMultiset(init, p);
      assert xs == init + [xs[|xs| - 1]];
    }
  }

  /** An element is kept iff it is in the input and satisfies the predicate. */
  lemma FilterMembership<T>(xs: seq<T>, p: T -> bool)
    ensures forall x :: x in Filter(xs, p) <==> x in xs && p(x)
  {
    FilterMultiset(xs, p);
    forall x ensures x in Filter(xs, p) <==> x in xs && p(x) {
      assert x in Filter(xs, p) <==> multiset(Filter(xs, p))[x] > 0;
      assert x in xs <==> multiset(xs)[x] > 0;
    }
  }

  /** Reordering the input does not change how many elements the filter keeps. */
  lemma FilterPermutation<T>(a: seq<T>, b: seq<T>, p: T -> bool)
    requires multiset(a) == multiset(b)
    ensures |Filter(a, p)| == |Filter(b, p)|
  {
    var fa, fb := Filter(a, p), Filter(b, p);
    FilterMultiset(a, p);
    FilterMultiset(b, p);
    forall x ensures multiset(fa)[x] == multiset(fb)[x] {
      assert multiset(a)[x] == multiset(b)[x];
    }
    MultisetExt(fa, fb);
    assert |multiset(fa)| == |fa|;
    assert |multiset(fb)| == |fb|;
  }

  lemma MultisetExt<T>(a: seq<T>, b: seq<T>)
    requires forall x :: multiset(a)[x] == multiset(b)[x]
    ensures multiset(a) == multiset(b)
  {
  }

  /** A predicate that holds everywhere keeps the whole input. */
  lemma {:induction false} FilterAll<T>(xs: seq<T>, p: T -> bool)
    requires forall i :: 0 <= i < |xs| ==> p(xs[i])
    ensures Filter(xs, p) == xs
    decreases |xs|
  {
    if xs != [] {
      FilterAll(xs[..|xs| - 1], p);
    }
  }

  /** `filter` never lengthens a list. */
  lemma {:induction false} FilterLength<T>(xs: seq<T>, p: T -> bool)
    ensures |Filter(xs, p)| <= |xs|
    decreases |xs|
  {
    if xs != [] {
      FilterLength(xs[..|xs| - 1], p);
    }
  }

  /** `flatMap`: the parts `f` yields for the elements, concatenated in input order. */
  function FlatMap<T, U>(xs: seq<T>, f: T -> seq<U>): seq<U>
    decreases |xs|
  {
    if xs == [] then [] else FlatMap(xs[..|xs| - 1], f) + f(xs[|xs| - 1])
  }

  /** `flatMap` over a concatenation is the concatenation of the two results. */
  lemma {:induction false} FlatMapAppend<T, U>(a: seq<T>, b: seq<T>, f: T -> seq<U>)
    ensures FlatMap(a + b, f) == FlatMap(a, f) + FlatMap(b, f)
    decreases |b|
  {
    if b == [] {
      assert a + b == a;
    } else {
      FlatMapAppend(a, b[..|b| - 1], f);
      assert (a + b)[..|a + b| - 1] == a + b[..|b| - 1];
    }
  }

  /** One more element adds its part at the end. */
  lemma FlatMapSnoc<T, U>(xs: seq<T>, f: T -> seq<U>, k: nat)
    requires k < |xs|
    ensures FlatMap(xs[..k + 1], f) == FlatMap(xs[..k], f) + f(xs[k])
  {
    assert xs[..k + 1][..k] == xs[..k];
  }

  /** Every element of the result comes from the part of some input element. */
  lemma {:induction false} FlatMapOrigin<T, U>(xs: seq<T>, f: T -> seq<U>, y: U)
    requires y in FlatMap(xs, f)
    ensures exists x :: x in xs && y in f(x)
    decreases |xs|
  {
    var init, x := xs[..|xs| - 1], xs[|xs| - 1];
    if y in FlatMap(init, f) {
      FlatMapOrigin(init, f, y);
      var x' :| x' in init && y in f(x');
      assert x' in xs;
    } else {
      assert x in xs;
    }
  }

  /** Every element of the image of an input element is in the flattened result. */
  lemma {:induction false} FlatMapComplete<T, U>(xs: seq<T>, f: T -> seq<U>, x: T, y: U)
    requires x in xs && y in f(x)
    ensures y in FlatMap(xs, f)
    decreases |xs|
  {
    var init := xs[..|xs| - 1];
    if x != xs[|xs| - 1] {
      assert xs == init + [xs[|xs| - 1]];
      assert x in init;
      FlatMapComplete(init, f, x, y);
    }
  }

  /** The length of `flatMap` is the sum of the lengths of the parts. */
  lemma {:induction false} FlatMapLength<T, U>(xs: seq<T>, f: T -> seq<U>)
    ensures |FlatMap(xs, f)| == Sum(seq(|xs|, i requires 0 <= i < |xs| => |f(xs[i])|))
    decreases |xs|
  {
    if xs != [] {
      var init := xs[..|xs| - 1];
      FlatMapLength(init, f);
      var s := seq(|xs|, i requires 0 <= i < |xs| => |f(xs[i])|);
      assert s[..|s| - 1] == seq(|init|, i requires 0 <= i < |init| => |f(init[i])|);
    }
  }

  function Sum(ns: seq<int>): int
    decreases |ns|
  {
    if ns == [] then 0 else Sum(ns[..|ns| - 1]) + ns[|ns| - 1]
  }

  /** The keys of the groups, in order of first appearance. */
  function Keys<T, K(==)>(xs: seq<T>, key: T -> K): seq<K>
    decreases |xs|
  {
    if xs == [] then []
    else
      var ks := Keys(xs[..|xs| - 1], key);
      var k := key(xs[|xs| - 1]);
      if k in ks then ks else ks + [k]
  }

  /** The members of group `k`, in input order. */
  function Members<T, K(==)>(xs: seq<T>, key: T -> K, k: K): seq<T>
    decreases |xs|
  {
    if xs == [] then []
    else Members(xs[..|xs| - 1], key, k) + (if key(xs[|xs| - 1]) == k then [xs[|xs| - 1]] else [])
  }

  /** The size of each listed group. */
  function GroupSizes<T, K(==)>(xs: seq<T>, key: T -> K, ks: seq<K>): seq<int> {
    seq(|ks|, i requires 0 <= i < |ks| => |Members(xs, key, ks[i])|)
  }

  ghost predicate Distinct<K>(ks: seq<K>) {
    forall i, j :: 0 <= i < j < |ks| ==> ks[i] != ks[j]
  }

  /** Grouping a concatenation groups each part and keeps their order. */
  lemma {:induction false} MembersAppend<T, K>(a: seq<T>, b: seq<T>, key: T -> K, k: K)
    ensures Members(a + b, key, k) == Members(a, key, k) + Members(b, key, k)
    decreases |b|
  {
    if b == [] {
      assert a + b == a;
    } else {
      var b' := b[..|b| - 1];
      MembersAppend(a, b', key, k);
      assert (a + b)[..|a + b| - 1] == a + b';
    }
  }

  /** Every member of group `k` is an input element whose key is `k`. */
  lemma {:induction false} MembersHaveKey<T, K>(xs: seq<T>, key: T -> K, k: K)
    ensures forall y :: y in Members(xs, key, k) ==> y in xs && key(y) == k
    decreases |xs|
  {
    if xs != [] {
      MembersHaveKey(xs[..|xs| - 1], key, k);
    }
  }

  /**
   * The keys are distinct, a key is listed iff its group is non-empty, and
   * every input element's key is listed.
   */
  lemma {:induction false} KeysSpec<T, K>(xs: seq<T>, key: T -> K)
    ensures Distinct(Keys(xs, key))
    ensures forall k :: k in Keys(xs, key) <==> Members(xs, key, k) != []
    ensures forall i :: 0 <= i < |xs| ==> key(xs[i]) in Keys(xs, key)
    decreases |xs|
  {
    if xs != [] {
      var init := xs[..|xs| - 1];
      KeysSpec(init, key);
      forall i | 0 <= i < |xs| ensures key(xs[i]) in Keys(xs, key) {
        if i < |init| { assert xs[i] == init[i]; }
      }
    }
  }

  /** The keys of a prefix of the input are a prefix of the keys: groups appear in order of first appearance. */
  lemma {:induction false} KeysOfPrefix<T, K>(xs: seq<T>, key: T -> K, n: nat)
    requires n <= |xs|
    ensures Keys(xs[..n], key) <= Keys(xs, key)
    decreases |xs|
  {
    if n < |xs| {
      var init := xs[..|xs| - 1];
      KeysOfPrefix(init, key, n);
      assert init[..n] == xs[..n];
    } else {
      assert xs[..n] == xs;
    }
  }

  /** No element has key `k`: group `k` is empty. */
  lemma {:induction false} MembersOfNone<T, K>(xs: seq<T>, key: T -> K, k: K)
    requires forall j :: 0 <= j < |xs| ==> key(xs[j]) != k
    ensures Members(xs, key, k) == []
    decreases |xs|
  {
    if xs != [] {
      MembersOfNone(xs[..|xs| - 1], key, k);
    }
  }

  /** The first element with key `k` heads group `k`. */
  lemma FirstMember<T, K>(xs: seq<T>, key: T -> K, n: nat)
    requires n < |xs|
    requires forall j :: 0 <= j < n ==> key(xs[j]) != key(xs[n])
    ensures |Members(xs, key, key(xs[n]))| > 0 && Members(xs, key, key(xs[n]))[0] == xs[n]
  {
    var k := key(xs[n]);
    assert xs == xs[..n] + xs[n..];
    MembersAppend(xs[..n], xs[n..], key, k);
    MembersOfNone(xs[..n], key, k);
    assert xs[n..] == [xs[n]] + xs[n + 1..];
    MembersAppend([xs[n]], xs[n + 1..], key, k);
    assert Members([xs[n]], key, k) == [xs[n]] by {
      assert [xs[n]][..0] == [];
    }
  }

  /** There are no more groups than elements. */
  lemma {:induction false} KeysLength<T, K>(xs: seq<T>, key: T -> K)
    ensures |Keys(xs, key)| <= |xs|
    decreases |xs|
  {
    if xs != [] {
      KeysLength(xs[..|xs| - 1], key);
    }
  }

  /** Each group is headed by the first element with its key. */
  lemma {:induction false} GroupHead<T, K>(xs: seq<T>, key: T -> K, k: K) returns (n: nat)
    requires k in Keys(xs, key)
    ensures n < |xs| && key(xs[n]) == k
    ensures forall j :: 0 <= j < n ==> key(xs[j]) != k
    ensures Members(xs, key, k) != [] && Members(xs, key, k)[0] == xs[n]
    decreases |xs|
  {
    var init, x := xs[..|xs| - 1], xs[|xs| - 1];
    KeysSpec(init, key);
    if k in Keys(init, key) {
      n := GroupHead(init, key, k);
    } else {
      n := |xs| - 1;
      forall j | 0 <= j < n ensures key(xs[j]) != k {
        assert xs[j] == init[j];
      }
      MembersOfNone(init, key, k);
    }
  }

  /** Appending one element adds one to the size of its own group, if that group is listed. */
  lemma {:induction false} SizesStep<T, K>(xs: seq<T>, x: T, key: T -> K, ks: seq<K>)
    requires Distinct(ks)
    ensures Sum(GroupSizes(xs + [x], key, ks)) == Sum(GroupSizes(xs, key, ks)) + (if key(x) in ks then 1 else 0)
    decreases |ks|
  {
    if ks != [] {
      var ks' := ks[..|ks| - 1];
      var last := ks[|ks| - 1];
      SizesStep(xs, x, key, ks');
      assert GroupSizes(xs + [x], key, ks)[..|ks'|] == GroupSizes(xs + [x], key, ks');
      assert GroupSizes(xs, key, ks)[..|ks'|] == GroupSizes(xs, key, ks');
      assert (xs + [x])[..|xs|] == xs;
      assert key(x) in ks <==> key(x) in ks' || key(x) == last;
      assert key(x) == last ==> key(x) !in ks';
    }
  }

  /** Adding a new last key adds the size of its group. */
  lemma SizesSnoc<T, K>(xs: seq<T>, key: T -> K, ks: seq<K>, k: K)
    ensures Sum(GroupSizes(xs, key, ks + [k])) == Sum(GroupSizes(xs, key, ks)) + |Members(xs, key, k)|
  {
    assert GroupSizes(xs, key, ks + [k])[..|ks|] == GroupSizes(xs, key, ks);
  }

  /** The groups partition the input: their sizes add up to the number of elements. */
  lemma {:induction false} PartitionSum<T, K>(xs: seq<T>, key: T -> K)
    ensures Sum(GroupSizes(xs, key, Keys(xs, key))) == |xs|
    decreases |xs|
  {
    if xs != [] {
      var init := xs[..|xs| - 1];
      var x := xs[|xs| - 1];
      var ks := Keys(init, key);
      PartitionSum(init, key);
      KeysSpec(init, key);
      assert xs == init + [x];
      SizesStep(init, x, key, ks);
      if key(x) !in ks {
        SizesSnoc(xs, key, ks, key(x));
        assert Members(init, key, key(x)) == [];
      }
    }
  }
}

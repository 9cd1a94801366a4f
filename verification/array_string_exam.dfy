/**
 * The array and string exercises of the exam page: each one is a loop over a
 * JavaScript array or string, written here as a method whose contract states
 * what the exercise asks for. Arrays of numbers are `seq<int>` (the inputs are
 * integers), strings are `seq<char>`; an array the exercise mutates in place
 * is an `array` or an object with a sequence field.
 */
module ArrayStringExam {
  import opened Text


  // ---------------------------------------------------------------------------
  // Two Sum / Three Sum
  // ---------------------------------------------------------------------------

  /** Some pair in `pairs` has `b` as its second index. */
  predicate EndsPair(pairs: seq<(nat, nat)>, b: int)
    decreases |pairs|
  {
    pairs != [] && (pairs[|pairs| - 1].1 == b || EndsPair(pairs[..|pairs| - 1], b))
  }

  /** EndsPair says exactly that some pair ends at `b`. */
  lemma {:induction false} EndsPairMeans(pairs: seq<(nat, nat)>, b: int)
    ensures EndsPair(pairs, b) <==> exists k :: 0 <= k < |pairs| && pairs[k].1 == b
    decreases |pairs|
  {
    if pairs != [] {
      var init := pairs[..|pairs| - 1];
      EndsPairMeans(init, b);
      if EndsPair(init, b) {
        var k :| 0 <= k < |init| && init[k].1 == b;
        assert pairs[k].1 == b;
      }
      if exists k :: 0 <= k < |pairs| && pairs[k].1 == b {
        var k :| 0 <= k < |pairs| && pairs[k].1 == b;
        if k < |init| { assert init[k].1 == b; }
      }
    }
  }

  lemma EndsPairAppend(pairs: seq<(nat, nat)>, p: (nat, nat))
    ensures forall b :: EndsPair(pairs + [p], b) <==> EndsPair(pairs, b) || p.1 == b
  {
    assert (pairs + [p])[..|pairs|] == pairs;
  }

  /**
   * What `twoSum` returns, as a property of the whole result. Every pair
   * [a, b] has a < b and sums to `target`; the pairs come in increasing b; an
   * index b gets a pair whenever an earlier index that did not complete a
   * pair itself sums with it to `target`; and the partner of b is the latest
   * such index: it completed no pair, and every later index before b with
   * the same value did.
   */
  ghost predicate TwoSumResult(arr: seq<int>, target: int, pairs: seq<(nat, nat)>) {
    PairsSound(arr, target, pairs) && EndsIncreasing(pairs) && PairsComplete(arr, target, pairs) &&
    StartsFree(pairs) && PartnersLatest(arr, pairs)
  }

  /** Every pair [a, b] has a < b and sums to `target`. */
  ghost predicate PairsSound(arr: seq<int>, target: int, pairs: seq<(nat, nat)>) {
    forall k :: 0 <= k < |pairs| ==>
      pairs[k].0 < pairs[k].1 < |arr| && arr[pairs[k].0] + arr[pairs[k].1] == target
  }

  /** The pairs come in increasing second index. */
  ghost predicate EndsIncreasing(pairs: seq<(nat, nat)>) {
    forall k, l :: 0 <= k < l < |pairs| ==> pairs[k].1 < pairs[l].1
  }

  /** An index b ends a pair whenever an earlier free index sums with it to `target`. */
  ghost predicate PairsComplete(arr: seq<int>, target: int, pairs: seq<(nat, nat)>) {
    forall a, b :: 0 <= a < b < |arr| && arr[a] + arr[b] == target && !EndsPair(pairs, a) ==>
      EndsPair(pairs, b)
  }

  /** No pair starts at an index that ends a pair. */
  ghost predicate StartsFree(pairs: seq<(nat, nat)>) {
    forall k :: 0 <= k < |pairs| ==> !EndsPair(pairs, pairs[k].0)
  }

  /** Every later index before b holding the partner's value ends a pair. */
  ghost predicate PartnersLatest(arr: seq<int>, pairs: seq<(nat, nat)>) {
    forall k, a :: 0 <= k < |pairs| && pairs[k].0 < a < pairs[k].1 && a < |arr| && arr[a] == arr[pairs[k].0] ==>
      EndsPair(pairs, a)
  }

  /**
   * `twoSum`: one pass with a map from a value to the latest index holding it
   * that did not itself complete a pair.
   */
  method TwoSum(arr: seq<int>, target: int) returns (pairs: seq<(nat, nat)>)
    ensures TwoSumResult(arr, target, pairs)
  {
    var seen: map<int, nat> := map[];
    pairs := [];
    for i := 0 to |arr|
      invariant TwoSumScanned(arr, target, i, seen, pairs)
    {
      var complement := target - arr[i];
      TwoSumStep(arr, target, i, seen, pairs, complement);
      if complement in seen {
        pairs := pairs + [(seen[complement], i)];
      } else {
        seen := seen[arr[i] := i];
      }
    }
    TwoSumDone(arr, target, seen, pairs);
  }

  /**
   * What the first i steps of `twoSum` establish: `TwoSumResult` for the
   * first i elements, and the map sends each value to the latest earlier
   * index holding it that completed no pair; every earlier index that
   * completed no pair has its value in the map.
   */
  ghost predicate TwoSumScanned(arr: seq<int>, target: int, i: int, seen: map<int, nat>, pairs: seq<(nat, nat)>) {
    0 <= i <= |arr| &&
    TwoSumResult(arr[..i], target, pairs) &&
    (forall v :: v in seen ==> seen[v] < i && arr[seen[v]] == v && !EndsPair(pairs, seen[v])) &&
    (forall v, a :: v in seen && seen[v] < a < i && arr[a] == v ==> EndsPair(pairs, a)) &&
    (forall a :: 0 <= a < i && !EndsPair(pairs, a) ==> arr[a] in seen)
  }

  lemma TwoSumDone(arr: seq<int>, target: int, seen: map<int, nat>, pairs: seq<(nat, nat)>)
    requires TwoSumScanned(arr, target, |arr|, seen, pairs)
    ensures TwoSumResult(arr, target, pairs)
  {
    assert arr[..|arr|] == arr;
  }

  lemma TwoSumStep(arr: seq<int>, target: int, i: int, seen: map<int, nat>, pairs: seq<(nat, nat)>, complement: int)
    requires TwoSumScanned(arr, target, i, seen, pairs) && i < |arr| && complement == target - arr[i]
    ensures complement in seen ==>
              TwoSumScanned(arr, target, i + 1, seen, pairs + [(seen[complement], i)])
    ensures complement !in seen ==>
              TwoSumScanned(arr, target, i + 1, seen[arr[i] := i], pairs)
  {
    var before, after := arr[..i], arr[..i + 1];
    assert forall a :: 0 <= a < i ==> after[a] == before[a] == arr[a];
    assert after[i] == arr[i];
    EndsPairsBelow(pairs, i);
    if complement in seen {
      var p := (seen[complement], i);
      EndsPairAppend(pairs, p);
      TwoSumPair(arr, target, i, seen, pairs, complement);
    } else {
      TwoSumKeep(arr, target, i, seen, pairs);
    }
  }

  /** Before step i, no pair ends at i or later. */
  lemma EndsPairsBelow(pairs: seq<(nat, nat)>, i: int)
    requires forall k :: 0 <= k < |pairs| ==> pairs[k].1 < i
    ensures forall b :: b >= i ==> !EndsPair(pairs, b)
  {
    forall b | b >= i ensures !EndsPair(pairs, b) {
      EndsPairMeans(pairs, b);
    }
  }

  /** Step i completes a pair with the index the map holds for its complement. */
  lemma TwoSumPair(arr: seq<int>, target: int, i: int, seen: map<int, nat>, pairs: seq<(nat, nat)>, complement: int)
    requires TwoSumScanned(arr, target, i, seen, pairs) && i < |arr| && complement == target - arr[i]
    requires complement in seen
    requires forall b :: b >= i ==> !EndsPair(pairs, b)
    requires forall b :: EndsPair(pairs + [(seen[complement], i)], b) <==> EndsPair(pairs, b) || i == b
    ensures TwoSumScanned(arr, target, i + 1, seen, pairs + [(seen[complement], i)])
  {
    PairResult(arr, target, i, seen, pairs, complement);
  }

  lemma PairResult(arr: seq<int>, target: int, i: int, seen: map<int, nat>, pairs: seq<(nat, nat)>, complement: int)
    requires TwoSumScanned(arr, target, i, seen, pairs) && i < |arr| && complement == target - arr[i]
    requires complement in seen
    requires forall b :: b >= i ==> !EndsPair(pairs, b)
    requires forall b :: EndsPair(pairs + [(seen[complement], i)], b) <==> EndsPair(pairs, b) || i == b
    ensures TwoSumResult(arr[..i + 1], target, pairs + [(seen[complement], i)])
  {
    var j := seen[complement];
    assert j < i && arr[j] == complement && !EndsPair(pairs, j);
    PairSound(arr, target, i, pairs, j);
    PairComplete(arr, target, i, seen, pairs, complement);
    PairLatest(arr, target, i, seen, pairs, complement);
  }

  /** The new pair (j, i) is sound, keeps the pairs ordered by their second index, and starts at no pair's end. */
  lemma PairSound(arr: seq<int>, target: int, i: int, pairs: seq<(nat, nat)>, j: nat)
    requires 0 <= i < |arr| && TwoSumResult(arr[..i], target, pairs)
    requires j < i && arr[j] + arr[i] == target && !EndsPair(pairs, j)
    requires forall b :: b >= i ==> !EndsPair(pairs, b)
    requires forall b :: EndsPair(pairs + [(j, i)], b) <==> EndsPair(pairs, b) || i == b
    ensures PairsSound(arr[..i + 1], target, pairs + [(j, i)])
    ensures EndsIncreasing(pairs + [(j, i)])
    ensures StartsFree(pairs + [(j, i)])
  {
    var pairs' := pairs + [(j, i)];
    var after := arr[..i + 1];
    assert forall k :: 0 <= k < |pairs| ==> pairs'[k] == pairs[k];
    assert forall a :: 0 <= a < i ==> after[a] == arr[..i][a] == arr[a];
  }

  lemma PairComplete(arr: seq<int>, target: int, i: int, seen: map<int, nat>, pairs: seq<(nat, nat)>, complement: int)
    requires TwoSumScanned(arr, target, i, seen, pairs) && i < |arr| && complement == target - arr[i]
    requires complement in seen
    requires forall b :: b >= i ==> !EndsPair(pairs, b)
    requires forall b :: EndsPair(pairs + [(seen[complement], i)], b) <==> EndsPair(pairs, b) || i == b
    ensures PairsComplete(arr[..i + 1], target, pairs + [(seen[complement], i)])
  {
    var pairs' := pairs + [(seen[complement], i)];
    var after := arr[..i + 1];
    forall a, b | 0 <= a < b < |after| && after[a] + after[b] == target && !EndsPair(pairs', a)
      ensures EndsPair(pairs', b)
    {
      assert arr[..i][a] == arr[a];
      if b < i { assert arr[..i][b] == arr[b]; }
    }
  }

  lemma PairLatest(arr: seq<int>, target: int, i: int, seen: map<int, nat>, pairs: seq<(nat, nat)>, complement: int)
    requires TwoSumScanned(arr, target, i, seen, pairs) && i < |arr| && complement == target - arr[i]
    requires complement in seen
    requires forall b :: b >= i ==> !EndsPair(pairs, b)
    requires forall b :: EndsPair(pairs + [(seen[complement], i)], b) <==> EndsPair(pairs, b) || i == b
    ensures PartnersLatest(arr[..i + 1], pairs + [(seen[complement], i)])
  {
    var pairs' := pairs + [(seen[complement], i)];
    var after := arr[..i + 1];
    forall k, a | 0 <= k < |pairs'| && pairs'[k].0 < a < pairs'[k].1 && a < |after| && after[a] == after[pairs'[k].0]
      ensures EndsPair(pairs', a)
    {
      if k < |pairs| {
        assert pairs'[k] == pairs[k];
        assert arr[..i][a] == arr[a] && arr[..i][pairs[k].0] == arr[pairs[k].0];
      }
    }
  }

  /** Step i completes no pair: its value now maps to i. */
  lemma TwoSumKeep(arr: seq<int>, target: int, i: int, seen: map<int, nat>, pairs: seq<(nat, nat)>)
    requires TwoSumScanned(arr, target, i, seen, pairs) && i < |arr| && target - arr[i] !in seen
    requires forall b :: b >= i ==> !EndsPair(pairs, b)
    ensures TwoSumScanned(arr, target, i + 1, seen[arr[i] := i], pairs)
  {
    KeepResult(arr, target, i, seen, pairs);
  }

  lemma KeepResult(arr: seq<int>, target: int, i: int, seen: map<int, nat>, pairs: seq<(nat, nat)>)
    requires TwoSumScanned(arr, target, i, seen, pairs) && i < |arr| && target - arr[i] !in seen
    requires forall b :: b >= i ==> !EndsPair(pairs, b)
    ensures TwoSumResult(arr[..i + 1], target, pairs)
  {
    var after := arr[..i + 1];
    assert TwoSumResult(after, target, pairs) by {
      forall a, b | 0 <= a < b < |after| && after[a] + after[b] == target && !EndsPair(pairs, a)
        ensures EndsPair(pairs, b)
      {
        assert arr[..i][a] == arr[a];
        if b < i { assert arr[..i][b] == arr[b]; }
      }
      forall k, a | 0 <= k < |pairs| && pairs[k].0 < a < pairs[k].1 && a < |after| && after[a] == after[pairs[k].0]
        ensures EndsPair(pairs, a)
      {
        assert arr[..i][a] == arr[a] && arr[..i][pairs[k].0] == arr[pairs[k].0];
      }
    }
  }

  /**
   * Every pair of positions summing to `target` is found up to order: either
   * the later one gets a partner with the earlier one's value, or the earlier
   * one completed a pair with a partner of the later one's value.
   */
  lemma TwoSumFindsValues(arr: seq<int>, target: int, pairs: seq<(nat, nat)>, a: int, b: int)
    requires TwoSumResult(arr, target, pairs) && 0 <= a < b < |arr| && arr[a] + arr[b] == target
    ensures exists k :: 0 <= k < |pairs| && multiset{arr[pairs[k].0], arr[pairs[k].1]} == multiset{arr[a], arr[b]}
  {
    EndsPairMeans(pairs, a);
    EndsPairMeans(pairs, b);
    var k: int;
    if EndsPair(pairs, a) {
      k :| 0 <= k < |pairs| && pairs[k].1 == a;
    } else {
      k :| 0 <= k < |pairs| && pairs[k].1 == b;
    }
    var x, y := arr[pairs[k].0], arr[pairs[k].1];
    assert x + y == target;
    SameTwo(x, y, arr[a], arr[b]);
  }

  /** Two pairs with the same sum that share one value hold the same two values. */
  lemma SameTwo(x: int, y: int, u: int, v: int)
    requires x + y == u + v && (y == u || y == v)
    ensures multiset{x, y} == multiset{u, v}
  {
  }

  /** On [1, 1, 1] with target 2 the middle 1 is used up by the first pair, so both pairs start at index 0. */
  lemma TwoSumOnes(pairs: seq<(nat, nat)>)
    requires TwoSumResult([1, 1, 1], 2, pairs)
    ensures pairs == [(0, 1), (0, 2)]
  {
    var arr := [1, 1, 1];
    EndsPairMeans(pairs, 0);
    EndsPairMeans(pairs, 1);
    EndsPairMeans(pairs, 2);
    assert !EndsPair(pairs, 0);
    assert EndsPair(pairs, 1);
    var k1 :| 0 <= k1 < |pairs| && pairs[k1].1 == 1;
    assert EndsPair(pairs, 2);
    var k2 :| 0 <= k2 < |pairs| && pairs[k2].1 == 2;
    assert pairs[k1] == (0, 1);
    assert pairs[k2].0 != 1;
    assert pairs[k2] == (0, 2);
    assert k1 == 0 && k2 == 1 && |pairs| == 2;
  }

  /** The array that `threeSum` splices: the caller sees it shrink. */
  class NumberArray {
    var items: seq<int>

    constructor (items: seq<int>)
      ensures this.items == items
    {
      this.items := items;
    }
  }

  /** `[x, ...pair.map((j) => rest[j])]` for every pair, in order. */
  function WithFirst(x: int, rest: seq<int>, pairs: seq<(nat, nat)>): (r: seq<(int, int, int)>)
    requires forall k :: 0 <= k < |pairs| ==> pairs[k].0 < |rest| && pairs[k].1 < |rest|
    ensures |r| == |pairs|
  {
    seq(|pairs|, k requires 0 <= k < |pairs| => (x, rest[pairs[k].0], rest[pairs[k].1]))
  }

  /** `t` is `[s[0], s[a], s[b]]` for some 1 <= a < b and sums to zero. */
  ghost predicate IsZeroTriple(t: (int, int, int), s: seq<int>) {
    |s| >= 1 && t.0 == s[0] && t.0 + t.1 + t.2 == 0 &&
    exists a, b :: 1 <= a < b < |s| && t.1 == s[a] && t.2 == s[b]
  }

  /**
   * `threeSum`: `arr.splice(i + 1)` cuts the array after its first element on
   * the first pass, so the loop condition fails on the second; the result is
   * `twoSum` over the rest with target `-arr[0]`, each pair read as values
   * behind the first element. Every triple starts with the original first
   * element and sums to zero.
   */
  method ThreeSum(arr: NumberArray) returns (triples: seq<(int, int, int)>)
    modifies arr
    ensures |old(arr.items)| <= 3 ==> arr.items == old(arr.items) && triples == []
    ensures |old(arr.items)| >= 4 ==> arr.items == old(arr.items)[..1]
    ensures |old(arr.items)| >= 4 ==>
              exists pairs :: TwoSumResult(old(arr.items)[1..], -old(arr.items)[0], pairs) &&
                triples == WithFirst(old(arr.items)[0], old(arr.items)[1..], pairs)
    ensures forall k :: 0 <= k < |triples| ==> IsZeroTriple(triples[k], old(arr.items))
  {
    ghost var original := arr.items;
    ghost var found: seq<(nat, nat)> := [];
    triples := [];
    var i := 0;
    while i < |arr.items| - 3
      invariant 0 <= i <= 1
      invariant i == 0 ==> arr.items == original && triples == []
      invariant i == 1 ==> |original| >= 4 && arr.items == original[..1]
      invariant i == 1 ==> TwoSumResult(original[1..], -original[0], found) &&
                           triples == WithFirst(original[0], original[1..], found)
      invariant forall k :: 0 <= k < |triples| ==> IsZeroTriple(triples[k], original)
      decreases |arr.items| - i
    {
      var rightArr := arr.items[i + 1..];
      arr.items := arr.items[..i + 1];
      var pairs := TwoSum(rightArr, 0 - arr.items[i]);
      found := pairs;
      for k := 0 to |pairs|
        invariant arr.items == original[..1] && rightArr == original[1..]
        invariant triples == WithFirst(original[0], rightArr, pairs)[..k]
        invariant forall m :: 0 <= m < |triples| ==> IsZeroTriple(triples[m], original)
      {
        var t := (arr.items[i], rightArr[pairs[k].0], rightArr[pairs[k].1]);
        assert t.1 == original[pairs[k].0 + 1] && t.2 == original[pairs[k].1 + 1];
        assert WithFirst(original[0], rightArr, pairs)[..k + 1] == triples + [t];
        triples := triples + [t];
      }
      assert WithFirst(original[0], rightArr, pairs)[..|pairs|] == WithFirst(original[0], rightArr, pairs);
      i := i + 1;
    }
  }

  /**
   * On [1, 2, -3, 5, -7] the triple 2 + 5 - 7 = 0 is never reported: every
   * triple `threeSum` reports starts with the first element, 1.
   */
  lemma ThreeSumMissesTriple(triples: seq<(int, int, int)>)
    requires forall k :: 0 <= k < |triples| ==> IsZeroTriple(triples[k], [1, 2, -3, 5, -7])
    ensures 2 + 5 + -7 == 0
    ensures forall k :: 0 <= k < |triples| ==> multiset{triples[k].0, triples[k].1, triples[k].2} != multiset{2, 5, -7}
  {
    forall k | 0 <= k < |triples|
      ensures multiset{triples[k].0, triples[k].1, triples[k].2} != multiset{2, 5, -7}
    {
      assert triples[k].0 == 1;
      assert 1 in multiset{triples[k].0, triples[k].1, triples[k].2};
    }
  }

  /** `t` is `[s[i], s[a], s[b]]` for some positions i < a < b and sums to zero. */
  ghost predicate IsZeroTripleAt(t: (int, int, int), s: seq<int>) {
    t.0 + t.1 + t.2 == 0 &&
    exists i, a, b :: 0 <= i < a < b < |s| && t == (s[i], s[a], s[b])
  }

  /** Some triple starts with `x` and holds `y` and `z` after it, in either order. */
  ghost predicate Found(triples: seq<(int, int, int)>, x: int, y: int, z: int) {
    exists k :: 0 <= k < |triples| && triples[k].0 == x && multiset{triples[k].1, triples[k].2} == multiset{y, z}
  }

  /** After the first i starts: every triple is a zero triple, and every zero triple starting before i is found. */
  ghost predicate ThreeSumScanned(arr: seq<int>, i: int, triples: seq<(int, int, int)>) {
    0 <= i <= |arr| &&
    (forall k :: 0 <= k < |triples| ==> IsZeroTripleAt(triples[k], arr)) &&
    (forall j, a, b :: 0 <= j < i && j < a < b < |arr| && arr[j] + arr[a] + arr[b] == 0 ==>
       Found(triples, arr[j], arr[a], arr[b]))
  }

  /**
   * The intended `threeSum`: every start position i, with `twoSum` over the
   * elements after it and no splice. Every reported triple is a zero triple
   * of positions i < a < b, and every such triple is reported, its last two
   * values possibly swapped.
   */
  method ThreeSumAll(arr: seq<int>) returns (triples: seq<(int, int, int)>)
    ensures forall k :: 0 <= k < |triples| ==> IsZeroTripleAt(triples[k], arr)
    ensures forall i, a, b :: 0 <= i < a < b < |arr| && arr[i] + arr[a] + arr[b] == 0 ==>
              Found(triples, arr[i], arr[a], arr[b])
  {
    triples := [];
    for i := 0 to |arr|
      invariant ThreeSumScanned(arr, i, triples)
    {
      var rest := arr[i + 1..];
      var pairs := TwoSum(rest, 0 - arr[i]);
      ThreeSumStep(arr, i, triples, pairs);
      triples := triples + WithFirst(arr[i], rest, pairs);
    }
  }

  lemma ThreeSumStep(arr: seq<int>, i: int, triples: seq<(int, int, int)>, pairs: seq<(nat, nat)>)
    requires ThreeSumScanned(arr, i, triples) && i < |arr|
    requires TwoSumResult(arr[i + 1..], -arr[i], pairs)
    ensures ThreeSumScanned(arr, i + 1, triples + WithFirst(arr[i], arr[i + 1..], pairs))
  {
    var all := triples + WithFirst(arr[i], arr[i + 1..], pairs);
    forall k | 0 <= k < |all| ensures IsZeroTripleAt(all[k], arr) {
      NewTripleSound(arr, i, triples, pairs, k);
    }
    forall j, a, b | 0 <= j < i + 1 && j < a < b < |arr| && arr[j] + arr[a] + arr[b] == 0
      ensures Found(all, arr[j], arr[a], arr[b])
    {
      if j < i {
        FoundAppend(triples, WithFirst(arr[i], arr[i + 1..], pairs), arr[j], arr[a], arr[b]);
      } else {
        NewTripleFound(arr, i, triples, pairs, a, b);
      }
    }
  }

  lemma NewTripleSound(arr: seq<int>, i: int, triples: seq<(int, int, int)>, pairs: seq<(nat, nat)>, k: int)
    requires 0 <= i < |arr| && forall m :: 0 <= m < |triples| ==> IsZeroTripleAt(triples[m], arr)
    requires PairsSound(arr[i + 1..], -arr[i], pairs)
    requires 0 <= k < |triples| + |pairs|
    ensures IsZeroTripleAt((triples + WithFirst(arr[i], arr[i + 1..], pairs))[k], arr)
  {
    var rest := arr[i + 1..];
    var more := WithFirst(arr[i], rest, pairs);
    var all := triples + more;
    if k >= |triples| {
      var m := k - |triples|;
      var a, b := i + 1 + pairs[m].0, i + 1 + pairs[m].1;
      assert rest[pairs[m].0] == arr[a] && rest[pairs[m].1] == arr[b];
      assert all[k] == more[m] == (arr[i], arr[a], arr[b]);
    } else {
      assert all[k] == triples[k];
    }
  }

  lemma FoundAppend(triples: seq<(int, int, int)>, more: seq<(int, int, int)>, x: int, y: int, z: int)
    requires Found(triples, x, y, z)
    ensures Found(triples + more, x, y, z)
  {
    var k :| 0 <= k < |triples| && triples[k].0 == x && multiset{triples[k].1, triples[k].2} == multiset{y, z};
    assert (triples + more)[k] == triples[k];
  }

  lemma NewTripleFound(arr: seq<int>, i: int, triples: seq<(int, int, int)>, pairs: seq<(nat, nat)>, a: int, b: int)
    requires 0 <= i < a < b < |arr| && arr[i] + arr[a] + arr[b] == 0
    requires TwoSumResult(arr[i + 1..], -arr[i], pairs)
    ensures Found(triples + WithFirst(arr[i], arr[i + 1..], pairs), arr[i], arr[a], arr[b])
  {
    var rest := arr[i + 1..];
    assert rest[a - i - 1] == arr[a] && rest[b - i - 1] == arr[b];
    FoundFromPairs(arr[i], rest, pairs, triples, a - i - 1, b - i - 1);
  }

  lemma FoundFromPairs(x: int, rest: seq<int>, pairs: seq<(nat, nat)>, triples: seq<(int, int, int)>, a: int, b: int)
    requires TwoSumResult(rest, -x, pairs) && 0 <= a < b < |rest| && x + rest[a] + rest[b] == 0
    ensures Found(triples + WithFirst(x, rest, pairs), x, rest[a], rest[b])
  {
    TwoSumFindsValues(rest, -x, pairs, a, b);
    var m :| 0 <= m < |pairs| && multiset{rest[pairs[m].0], rest[pairs[m].1]} == multiset{rest[a], rest[b]};
    var all := triples + WithFirst(x, rest, pairs);
    assert all[|triples| + m] == (x, rest[pairs[m].0], rest[pairs[m].1]);
    FoundAt(all, |triples| + m, x, rest[a], rest[b]);
  }

  lemma FoundAt(triples: seq<(int, int, int)>, k: int, x: int, y: int, z: int)
    requires 0 <= k < |triples| && triples[k].0 == x && multiset{triples[k].1, triples[k].2} == multiset{y, z}
    ensures Found(triples, x, y, z)
  {
  }

  // ---------------------------------------------------------------------------
  // Best time to buy and sell
  // ---------------------------------------------------------------------------

  /**
   * `maxProfit`: -1 for fewer than two prices; otherwise the best
   * arr[j] - arr[i] over i < j when one of them is non-negative, else -1.
   */
  method MaxProfit(arr: seq<int>) returns (profit: int)
    ensures |arr| < 2 ==> profit == -1
    ensures profit >= -1
    ensures forall i, j :: 0 <= i < j < |arr| ==> arr[j] - arr[i] <= profit
    ensures profit == -1 || exists i, j :: 0 <= i < j < |arr| && arr[j] - arr[i] == profit
  {
    if |arr| < 2 { return -1; }
    profit := -1;
    var minPrice := arr[0];
    ghost var at := 0;
    for i := 1 to |arr|
      invariant 0 <= at < i && minPrice == arr[at]
      invariant forall k :: 0 <= k < i ==> minPrice <= arr[k]
      invariant profit >= -1
      invariant forall a, b :: 0 <= a < b < i ==> arr[b] - arr[a] <= profit
      invariant profit == -1 || exists a, b :: 0 <= a < b < i && arr[b] - arr[a] == profit
    {
      if arr[i] >= minPrice {
        profit := Max(profit, arr[i] - minPrice);
      } else {
        minPrice := arr[i];
        at := i;
      }
    }
  }

  // ---------------------------------------------------------------------------
  // Container with most water
  // ---------------------------------------------------------------------------

  function Area(h: seq<int>, i: int, j: int): int
    requires 0 <= i < j < |h|
  {
    Min(h[i], h[j]) * (j - i)
  }

  predicate NonNegative(h: seq<int>) { forall k :: 0 <= k < |h| ==> h[k] >= 0 }

  lemma MulMonotone(a: int, b: int, c: int, d: int)
    requires 0 <= c <= d && a <= b && 0 <= b
    ensures a * c <= b * d
  {
    assert a * c <= b * c;
    assert b * c <= b * d;
  }

  /** Moving the lower end inwards never gives a larger container. */
  lemma AreaShrinks(h: seq<int>, i: int, j: int, k: int)
    requires NonNegative(h) && 0 <= i < j < |h|
    ensures h[i] <= h[j] && i < k <= j ==> Area(h, i, k) <= Area(h, i, j)
    ensures h[j] <= h[i] && i <= k < j ==> Area(h, k, j) <= Area(h, i, j)
  {
    if h[i] <= h[j] && i < k <= j {
      MulMonotone(Min(h[i], h[k]), h[i], k - i, j - i);
    }
    if h[j] <= h[i] && i <= k < j {
      MulMonotone(Min(h[k], h[j]), h[j], j - k, j - i);
    }
  }

  /**
   * `containerWithMostWater`: the two-pointer search. The result is 0 or the
   * area of some pair, and for non-negative heights no pair does better.
   */
  method ContainerWithMostWater(h: seq<int>) returns (most: int)
    ensures most >= 0
    ensures |h| < 2 ==> most == 0
    ensures most == 0 || exists i, j :: 0 <= i < j < |h| && Area(h, i, j) == most
    ensures NonNegative(h) ==> forall i, j :: 0 <= i < j < |h| ==> Area(h, i, j) <= most
  {
    most := 0;
    var left, right := 0, |h| - 1;
    while left < right
      invariant 0 <= left && right < |h| && left <= right + 1
      invariant |h| >= 1 ==> left <= right
      invariant most >= 0
      invariant most == 0 || exists i, j :: 0 <= i < j < |h| && Area(h, i, j) == most
      invariant NonNegative(h) ==> forall i, j :: 0 <= i < j < |h| && (i < left || j > right) ==> Area(h, i, j) <= most
      decreases right - left
    {
      var area := Area(h, left, right);
      most := Max(most, area);
      if h[left] < h[right] {
        if NonNegative(h) {
          forall k | left < k <= right ensures Area(h, left, k) <= most { AreaShrinks(h, left, right, k); }
        }
        left := left + 1;
      } else {
        if NonNegative(h) {
          forall k | left <= k < right ensures Area(h, k, right) <= most { AreaShrinks(h, left, right, k); }
        }
        right := right - 1;
      }
    }
  }

  // ---------------------------------------------------------------------------
  // Trapping rain water
  // ---------------------------------------------------------------------------

  /** The greatest of arr[0..i]. */
  function PrefixMax(arr: seq<int>, i: int): (m: int)
    requires 0 <= i < |arr|
    ensures arr[i] <= m
    decreases i
  {
    if i == 0 then arr[0] else Max(PrefixMax(arr, i - 1), arr[i])
  }

  /** The greatest of arr[i..]. */
  function SuffixMax(arr: seq<int>, i: int): (m: int)
    requires 0 <= i < |arr|
    ensures arr[i] <= m
    decreases |arr| - i
  {
    if i == |arr| - 1 then arr[i] else Max(SuffixMax(arr, i + 1), arr[i])
  }

  /** PrefixMax(arr, i) is the greatest of arr[0..i], and SuffixMax(arr, i) the greatest of arr[i..]. */
  lemma {:induction false} MaxBounds(arr: seq<int>, i: int)
    requires 0 <= i < |arr|
    ensures forall k :: 0 <= k <= i ==> arr[k] <= PrefixMax(arr, i)
    ensures exists k :: 0 <= k <= i && arr[k] == PrefixMax(arr, i)
    ensures forall k :: i <= k < |arr| ==> arr[k] <= SuffixMax(arr, i)
    ensures exists k :: i <= k < |arr| && arr[k] == SuffixMax(arr, i)
  {
    PrefixMaxBounds(arr, i);
    SuffixMaxBounds(arr, i);
  }

  lemma {:induction false} PrefixMaxBounds(arr: seq<int>, i: int)
    requires 0 <= i < |arr|
    ensures forall k :: 0 <= k <= i ==> arr[k] <= PrefixMax(arr, i)
    ensures exists k :: 0 <= k <= i && arr[k] == PrefixMax(arr, i)
    decreases i
  {
    if i == 0 {
      assert arr[0] == PrefixMax(arr, 0);
    } else {
      PrefixMaxBounds(arr, i - 1);
      if arr[i] < PrefixMax(arr, i - 1) {
        var k :| 0 <= k <= i - 1 && arr[k] == PrefixMax(arr, i - 1);
        assert arr[k] == PrefixMax(arr, i);
      } else {
        assert arr[i] == PrefixMax(arr, i);
      }
    }
  }

  lemma {:induction false} SuffixMaxBounds(arr: seq<int>, i: int)
    requires 0 <= i < |arr|
    ensures forall k :: i <= k < |arr| ==> arr[k] <= SuffixMax(arr, i)
    ensures exists k :: i <= k < |arr| && arr[k] == SuffixMax(arr, i)
    decreases |arr| - i
  {
    if i == |arr| - 1 {
      assert arr[i] == SuffixMax(arr, i);
    } else {
      SuffixMaxBounds(arr, i + 1);
      if arr[i] < SuffixMax(arr, i + 1) {
        var k :| i + 1 <= k < |arr| && arr[k] == SuffixMax(arr, i + 1);
        assert arr[k] == SuffixMax(arr, i);
      } else {
        assert arr[i] == SuffixMax(arr, i);
      }
    }
  }

  /** The water standing on bar i: up to the lower of the highest bars on either side. */
  function WaterAt(arr: seq<int>, i: int): (w: int)
    requires 0 <= i < |arr|
    ensures w >= 0
    ensures w == 0 <==> arr[i] == PrefixMax(arr, i) || arr[i] == SuffixMax(arr, i)
  {
    Min(PrefixMax(arr, i), SuffixMax(arr, i)) - arr[i]
  }

  /** The water standing on bars lo..hi-1. */
  function WaterBetween(arr: seq<int>, lo: int, hi: int): int
    requires 0 <= lo <= hi <= |arr|
    decreases hi - lo
  {
    if lo == hi then 0 else WaterBetween(arr, lo, hi - 1) + WaterAt(arr, hi - 1)
  }

  /** The amount of water the bars trap. */
  function TrappedTotal(arr: seq<int>): int {
    WaterBetween(arr, 0, |arr|)
  }

  lemma {:induction false} WaterBetweenNonNegative(arr: seq<int>, lo: int, hi: int)
    requires 0 <= lo <= hi <= |arr|
    ensures WaterBetween(arr, lo, hi) >= 0
    decreases hi - lo
  {
    if lo < hi { WaterBetweenNonNegative(arr, lo, hi - 1); }
  }

  lemma {:induction false} WaterBetweenSplit(arr: seq<int>, lo: int, mid: int, hi: int)
    requires 0 <= lo <= mid <= hi <= |arr|
    ensures WaterBetween(arr, lo, hi) == WaterBetween(arr, lo, mid) + WaterBetween(arr, mid, hi)
    decreases hi - mid
  {
    if mid < hi { WaterBetweenSplit(arr, lo, mid, hi - 1); }
  }

  lemma {:induction false} SuffixMaxMonotone(arr: seq<int>, i: int, j: int)
    requires 0 <= i <= j < |arr|
    ensures SuffixMax(arr, j) <= SuffixMax(arr, i)
    decreases j - i
  {
    if i < j { SuffixMaxMonotone(arr, i + 1, j); }
  }

  lemma {:induction false} PrefixMaxMonotone(arr: seq<int>, i: int, j: int)
    requires 0 <= i <= j < |arr|
    ensures PrefixMax(arr, i) <= PrefixMax(arr, j)
    decreases j - i
  {
    if i < j { PrefixMaxMonotone(arr, i, j - 1); }
  }

  /**
   * The loop of `trappedWater` as written, from the pointers and the running
   * maxima it has reached: both pointers' bars are counted on every pass, and
   * only one pointer moves, so the bar that stays is counted again.
   */
  function WaterFrom(arr: seq<int>, left: int, right: int, leftMax: int, rightMax: int): (water: int)
    requires 0 <= left && right < |arr|
    ensures water >= 0
    decreases right - left
  {
    if left >= right then 0
    else
      var gainLeft := if arr[left] < leftMax then leftMax - arr[left] else 0;
      var newLeftMax := if arr[left] < leftMax then leftMax else arr[left];
      var gainRight := if arr[right] < rightMax then rightMax - arr[right] else 0;
      var newRightMax := if arr[right] < rightMax then rightMax else arr[right];
      if arr[left] < arr[right] then gainLeft + gainRight + WaterFrom(arr, left + 1, right, newLeftMax, newRightMax)
      else gainLeft + gainRight + WaterFrom(arr, left, right - 1, newLeftMax, newRightMax)
  }

  /** What `trappedWater` returns; on an empty array the loop never runs. */
  function TrappedWaterAsWritten(arr: seq<int>): int {
    if arr == [] then 0 else WaterFrom(arr, 1, |arr| - 2, arr[0], arr[|arr| - 1])
  }

  /** `trappedWater` as written: it always stops, never goes negative, and is 0 for three bars or fewer. */
  method TrappedWater(arr: seq<int>) returns (water: int)
    ensures water == TrappedWaterAsWritten(arr)
    ensures water >= 0
    ensures |arr| <= 3 ==> water == 0
  {
    water := 0;
    if arr == [] { return; }
    var leftMax, rightMax := arr[0], arr[|arr| - 1];
    var left, right := 1, |arr| - 2;
    while left < right
      invariant 1 <= left && right <= |arr| - 2
      invariant water >= 0
      invariant water + WaterFrom(arr, left, right, leftMax, rightMax) == TrappedWaterAsWritten(arr)
      decreases right - left
    {
      if arr[left] < leftMax {
        water := water + leftMax - arr[left];
      } else {
        leftMax := arr[left];
      }
      if arr[right] < rightMax {
        water := water + rightMax - arr[right];
      } else {
        rightMax := arr[right];
      }
      if arr[left] < arr[right] {
        left := left + 1;
      } else {
        right := right - 1;
      }
    }
  }

  /** [2,0,1,0,2] holds 5 units of water; `trappedWater` reports 7, counting the middle-left bar twice. */
  lemma TrappedWaterOvercounts()
    ensures TrappedWaterAsWritten([2, 0, 1, 0, 2]) == 7
    ensures TrappedTotal([2, 0, 1, 0, 2]) == 5
  {
    var arr := [2, 0, 1, 0, 2];
    assert WaterFrom(arr, 2, 2, 2, 2) == 0;
    assert WaterFrom(arr, 1, 2, 2, 2) == 3;
    assert WaterFrom(arr, 1, 3, 2, 2) == 7;
    assert PrefixMax(arr, 0) == 2 && PrefixMax(arr, 1) == 2 && PrefixMax(arr, 2) == 2;
    assert PrefixMax(arr, 3) == 2 && PrefixMax(arr, 4) == 2;
    assert SuffixMax(arr, 4) == 2 && SuffixMax(arr, 3) == 2 && SuffixMax(arr, 2) == 2;
    assert SuffixMax(arr, 1) == 2 && SuffixMax(arr, 0) == 2;
    assert WaterBetween(arr, 0, 2) == 2;
    assert WaterBetween(arr, 0, 3) == 3;
    assert WaterBetween(arr, 0, 4) == 5;
  }

  /** When the left running maximum is the lower one, the left bar's water is bounded by it. */
  lemma LeftBarWater(arr: seq<int>, left: int, right: int, leftMax: int, rightMax: int)
    requires 0 <= left <= right < |arr|
    requires leftMax == PrefixMax(arr, if left == 0 then 0 else left - 1)
    requires rightMax == SuffixMax(arr, if right == |arr| - 1 then |arr| - 1 else right + 1)
    requires leftMax < rightMax
    ensures Max(leftMax, arr[left]) == PrefixMax(arr, left)
    ensures WaterAt(arr, left) == Max(leftMax, arr[left]) - arr[left]
    ensures WaterBetween(arr, 0, left + 1) == WaterBetween(arr, 0, left) + WaterAt(arr, left)
  {
    SuffixMaxMonotone(arr, left, if right == |arr| - 1 then |arr| - 1 else right + 1);
  }

  /** When the right running maximum is not above the left one, the right bar's water is bounded by it. */
  lemma RightBarWater(arr: seq<int>, left: int, right: int, leftMax: int, rightMax: int)
    requires 0 <= left <= right < |arr|
    requires leftMax == PrefixMax(arr, if left == 0 then 0 else left - 1)
    requires rightMax == SuffixMax(arr, if right == |arr| - 1 then |arr| - 1 else right + 1)
    requires leftMax >= rightMax
    ensures Max(rightMax, arr[right]) == SuffixMax(arr, right)
    ensures WaterAt(arr, right) == Max(rightMax, arr[right]) - arr[right]
    ensures WaterBetween(arr, right, |arr|) == WaterAt(arr, right) + WaterBetween(arr, right + 1, |arr|)
  {
    PrefixMaxMonotone(arr, if left == 0 then 0 else left - 1, right);
    WaterBetweenSplit(arr, right, right + 1, |arr|);
  }

  /**
   * The state of the corrected two-pointer scan: the bars before `left` and
   * after `right` are counted, and the running maxima are those of the bars seen.
   */
  ghost predicate Scanned(arr: seq<int>, left: int, right: int, leftMax: int, rightMax: int, water: int) {
    |arr| >= 1 && 0 <= left <= right + 1 <= |arr| &&
    leftMax == PrefixMax(arr, if left == 0 then 0 else left - 1) &&
    rightMax == SuffixMax(arr, if right == |arr| - 1 then |arr| - 1 else right + 1) &&
    water == WaterBetween(arr, 0, left) + WaterBetween(arr, right + 1, |arr|)
  }

  lemma ScanStart(arr: seq<int>)
    requires arr != []
    ensures Scanned(arr, 0, |arr| - 1, arr[0], arr[|arr| - 1], 0)
  {
  }

  /** Once the pointers cross, every bar is counted once. */
  lemma ScanDone(arr: seq<int>, left: int, right: int, leftMax: int, rightMax: int, water: int)
    requires Scanned(arr, left, right, leftMax, rightMax, water) && left > right
    ensures water == TrappedTotal(arr) && water >= 0
  {
    WaterBetweenSplit(arr, 0, left, |arr|);
    WaterBetweenNonNegative(arr, 0, |arr|);
  }

  /** One step of the corrected scan keeps its state description. */
  lemma ScanStep(arr: seq<int>, left: int, right: int, leftMax: int, rightMax: int, water: int)
    requires Scanned(arr, left, right, leftMax, rightMax, water) && left <= right
    ensures leftMax < rightMax ==>
              Scanned(arr, left + 1, right, Max(leftMax, arr[left]), rightMax, water + WaterAt(arr, left))
    ensures leftMax >= rightMax ==>
              Scanned(arr, left, right - 1, leftMax, Max(rightMax, arr[right]), water + WaterAt(arr, right))
  {
    if leftMax < rightMax {
      LeftBarWater(arr, left, right, leftMax, rightMax);
    } else {
      RightBarWater(arr, left, right, leftMax, rightMax);
    }
  }

  /**
   * The two-pointer method with the intended accounting: the side with the
   * lower running maximum moves, and only the bar it leaves is counted. It
   * computes exactly the trapped amount.
   */
  method TrappedWaterCorrected(arr: seq<int>) returns (water: int)
    ensures water == TrappedTotal(arr)
    ensures water >= 0
  {
    water := 0;
    if arr == [] { return; }
    var n := |arr|;
    var left, right := 0, n - 1;
    var leftMax, rightMax := arr[0], arr[n - 1];
    ScanStart(arr);
    while left <= right
      invariant Scanned(arr, left, right, leftMax, rightMax, water)
      decreases right - left
    {
      ScanStep(arr, left, right, leftMax, rightMax, water);
      if leftMax < rightMax {
        leftMax := Max(leftMax, arr[left]);
        water := water + WaterAt(arr, left);
        left := left + 1;
      } else {
        rightMax := Max(rightMax, arr[right]);
        water := water + WaterAt(arr, right);
        right := right - 1;
      }
    }
    ScanDone(arr, left, right, leftMax, rightMax, water);
  }

  // ---------------------------------------------------------------------------
  // Anagrams
  // ---------------------------------------------------------------------------

  /** `toLowerCase` on the ASCII letters. */
  function LowerAscii(c: char): (r: char)
    ensures !('A' <= r <= 'Z')
    ensures 'A' <= c <= 'Z' ==> r as int == c as int + 32
    ensures !('A' <= c <= 'Z') ==> r == c
  {
    if 'A' <= c <= 'Z' then (c as int + 32) as char else c
  }

  /** `str.replace(/\s+/g, "").toLowerCase()`. */
  function Normalize(s: string): (r: string)
    ensures |r| <= |s|
    decreases |s|
  {
    if s == [] then []
    else if IsJsWhitespace(s[0]) then Normalize(s[1..])
    else [LowerAscii(s[0])] + Normalize(s[1..])
  }

  /** One character: white space is dropped, anything else is kept, lowered. */
  lemma NormalizeSingle(c: char)
    ensures Normalize([c]) == if IsJsWhitespace(c) then [] else [LowerAscii(c)]
  {
    assert [c][1..] == [];
  }

  /** Normalising a concatenation normalises each part: every other character is kept, in order. */
  lemma {:induction false} NormalizeAppend(a: string, b: string)
    ensures Normalize(a + b) == Normalize(a) + Normalize(b)
    decreases |a|
  {
    if a != [] {
      assert (a + b)[0] == a[0] && (a + b)[1..] == a[1..] + b;
      NormalizeAppend(a[1..], b);
    } else {
      assert a + b == b;
    }
  }

  /** The characters of a string, counted, once white space and case are dropped. */
  ghost function Letters(s: string): multiset<char> {
    multiset(Normalize(s))
  }

  ghost predicate Anagrams(a: string, b: string) {
    Letters(a) == Letters(b)
  }

  /** The normalised string holds no white space and no upper-case ASCII letter. */
  lemma {:induction false} NormalizeClean(s: string)
    ensures forall i :: 0 <= i < |Normalize(s)| ==> !IsJsWhitespace(Normalize(s)[i]) && !('A' <= Normalize(s)[i] <= 'Z')
    decreases |s|
  {
    if s != [] {
      NormalizeClean(s[1..]);
    }
  }

  /**
   * `isAnagram`: after normalising, one pass counts the characters of the
   * first string and a second pass uses them up with the second.
   */
  method IsAnagram(str1: string, str2: string) returns (b: bool)
    ensures b <==> Anagrams(str1, str2)
  {
    var s1, s2 := Normalize(str1), Normalize(str2);
    if |s1| != |s2| {
      assert |multiset(s1)| != |multiset(s2)|;
      return false;
    }
    var count: multiset<char> := multiset{};
    for i := 0 to |s1|
      invariant count == multiset(s1[..i])
    {
      CountStep(count, s1, i);
      count := count[s1[i] := count[s1[i]] + 1];
    }
    assert s1[..|s1|] == s1;
    for i := 0 to |s2|
      invariant multiset(s2[..i]) <= multiset(s1)
      invariant count == multiset(s1) - multiset(s2[..i])
    {
      if count[s2[i]] == 0 {
        UsedUp(s1, s2, i);
        return false;
      }
      UseStep(count, s1, s2, i);
      count := count[s2[i] := count[s2[i]] - 1];
    }
    assert s2[..|s2|] == s2;
    SameSizeSubmultiset(multiset(s2), multiset(s1));
    return true;
  }

  lemma PrefixMultiset(s: string, i: int)
    requires 0 <= i < |s|
    ensures multiset(s[..i + 1]) == multiset(s[..i]) + multiset{s[i]}
  {
    assert s[..i + 1] == s[..i] + [s[i]];
  }

  /** Counting one more character of `s`. */
  lemma CountStep(count: multiset<char>, s: string, i: int)
    requires 0 <= i < |s| && count == multiset(s[..i])
    ensures count[s[i] := count[s[i]] + 1] == multiset(s[..i + 1])
  {
    PrefixMultiset(s, i);
  }

  /** Using up one character of the second string against the counts of the first. */
  lemma UseStep(count: multiset<char>, s1: string, s2: string, i: int)
    requires 0 <= i < |s2| && multiset(s2[..i]) <= multiset(s1)
    requires count == multiset(s1) - multiset(s2[..i]) && count[s2[i]] > 0
    ensures multiset(s2[..i + 1]) <= multiset(s1)
    ensures count[s2[i] := count[s2[i]] - 1] == multiset(s1) - multiset(s2[..i + 1])
  {
    PrefixMultiset(s2, i);
  }

  /** A character the second string needs once more than the first supplies rules out an anagram. */
  lemma UsedUp(s1: string, s2: string, i: int)
    requires 0 <= i < |s2|
    requires multiset(s2[..i]) <= multiset(s1)
    requires (multiset(s1) - multiset(s2[..i]))[s2[i]] == 0
    ensures multiset(s1) != multiset(s2)
  {
    assert s2 == s2[..i] + [s2[i]] + s2[i + 1..];
    assert multiset(s2)[s2[i]] >= multiset(s2[..i])[s2[i]] + 1;
  }

  lemma SameSizeSubmultiset(a: multiset<char>, b: multiset<char>)
    requires a <= b && |a| == |b|
    ensures a == b
  {
    var d := b - a;
    assert b == a + d;
    assert |d| == 0;
  }

  // Grouping, stated over any key: the anagram groups are the classes of `Letters`.

  /** The members of `s` whose key is `k`, in order. */
  ghost function SelectBy<T, K>(s: seq<T>, key: T -> K, k: K): (r: seq<T>)
    ensures |r| <= |s|
    decreases |s|
  {
    if s == [] then []
    else SelectBy(s[..|s| - 1], key, k) + (if key(s[|s| - 1]) == k then [s[|s| - 1]] else [])
  }

  /** The members of `s` whose key is none of `ks`, in order. */
  ghost function RejectBy<T, K>(s: seq<T>, key: T -> K, ks: seq<K>): (r: seq<T>)
    ensures |r| <= |s|
    decreases |s|
  {
    if s == [] then []
    else RejectBy(s[..|s| - 1], key, ks) + (if key(s[|s| - 1]) !in ks then [s[|s| - 1]] else [])
  }

  /** The keys of the groups' first members. */
  ghost function FirstKeys(groups: seq<seq<string>>): (r: seq<multiset<char>>)
    requires forall g :: 0 <= g < |groups| ==> |groups[g]| >= 1
    ensures |r| == |groups|
    decreases |groups|
  {
    if groups == [] then [] else FirstKeys(groups[..|groups| - 1]) + [Letters(groups[|groups| - 1][0])]
  }

  /**
   * Group by group: each group's first member is the first string of `arr`
   * that no earlier group's first member is an anagram of, and the group is
   * every anagram of that member in `arr`, in order.
   */
  ghost predicate ClassesInOrder(arr: seq<string>, groups: seq<seq<string>>)
    requires forall g :: 0 <= g < |groups| ==> |groups[g]| >= 1
    decreases |groups|
  {
    groups != [] ==>
      var init, last := groups[..|groups| - 1], groups[|groups| - 1];
      ClassesInOrder(arr, init) &&
      RejectBy(arr, Letters, FirstKeys(init)) != [] &&
      last[0] == RejectBy(arr, Letters, FirstKeys(init))[0] &&
      last == SelectBy(arr, Letters, Letters(last[0]))
  }

  /** In particular, every group is the set of anagrams of its first member, in input order. */
  lemma {:induction false} ClassesInOrderGroup(arr: seq<string>, groups: seq<seq<string>>, g: int)
    requires forall g :: 0 <= g < |groups| ==> |groups[g]| >= 1
    requires ClassesInOrder(arr, groups) && 0 <= g < |groups|
    ensures groups[g] == SelectBy(arr, Letters, Letters(groups[g][0]))
    decreases |groups|
  {
    if g < |groups| - 1 {
      var init := groups[..|groups| - 1];
      assert init[g] == groups[g];
      ClassesInOrderGroup(arr, init, g);
    }
  }

  lemma {:induction false} SelectByAppend<T, K>(a: seq<T>, b: seq<T>, key: T -> K, k: K)
    ensures SelectBy(a + b, key, k) == SelectBy(a, key, k) + SelectBy(b, key, k)
    decreases |b|
  {
    if b == [] {
      assert a + b == a;
    } else {
      SelectByAppend(a, b[..|b| - 1], key, k);
      assert (a + b)[..|a + b| - 1] == a + b[..|b| - 1];
    }
  }

  lemma {:induction false} RejectByAppend<T, K>(a: seq<T>, b: seq<T>, key: T -> K, ks: seq<K>)
    ensures RejectBy(a + b, key, ks) == RejectBy(a, key, ks) + RejectBy(b, key, ks)
    decreases |b|
  {
    if b == [] {
      assert a + b == a;
    } else {
      RejectByAppend(a, b[..|b| - 1], key, ks);
      assert (a + b)[..|a + b| - 1] == a + b[..|b| - 1];
    }
  }

  lemma SelectBySnoc<T, K>(s: seq<T>, key: T -> K, k: K, j: int)
    requires 0 <= j < |s|
    ensures SelectBy(s[..j + 1], key, k) == SelectBy(s[..j], key, k) + (if key(s[j]) == k then [s[j]] else [])
  {
    assert s[..j + 1][..j] == s[..j];
  }

  lemma RejectBySnoc<T, K>(s: seq<T>, key: T -> K, ks: seq<K>, j: int)
    requires 0 <= j < |s|
    ensures RejectBy(s[..j + 1], key, ks) == RejectBy(s[..j], key, ks) + (if key(s[j]) !in ks then [s[j]] else [])
  {
    assert s[..j + 1][..j] == s[..j];
  }

  lemma SelectBySingle<T, K>(x: T, key: T -> K, k: K)
    ensures SelectBy([x], key, k) == if key(x) == k then [x] else []
  {
    assert [x][..0] == [];
  }

  lemma RejectBySingle<T, K>(x: T, key: T -> K, ks: seq<K>)
    ensures RejectBy([x], key, ks) == if key(x) !in ks then [x] else []
  {
    assert [x][..0] == [];
  }

  /** Everything `RejectBy` keeps has a key outside `ks`. */
  lemma {:induction false} RejectByMembers<T, K>(s: seq<T>, key: T -> K, ks: seq<K>)
    ensures forall i :: 0 <= i < |RejectBy(s, key, ks)| ==> key(RejectBy(s, key, ks)[i]) !in ks
    decreases |s|
  {
    if s != [] {
      RejectByMembers(s[..|s| - 1], key, ks);
    }
  }

  lemma {:induction false} RejectByNothing<T, K>(s: seq<T>, key: T -> K)
    ensures RejectBy(s, key, []) == s
    decreases |s|
  {
    if s != [] {
      RejectByNothing(s[..|s| - 1], key);
    }
  }

  /** Rejecting the keys `ks` and then the keys `more` rejects the keys `ks + more`. */
  lemma {:induction false} RejectByTwice<T, K>(s: seq<T>, key: T -> K, ks: seq<K>, more: seq<K>)
    ensures RejectBy(RejectBy(s, key, ks), key, more) == RejectBy(s, key, ks + more)
    decreases |s|
  {
    if s != [] {
      var init, x := s[..|s| - 1], s[|s| - 1];
      RejectByTwice(init, key, ks, more);
      assert key(x) in ks + more <==> key(x) in ks || key(x) in more;
      var single: seq<T> := if key(x) !in ks then [x] else [];
      RejectByAppend(RejectBy(init, key, ks), single, key, more);
      RejectBySingle(x, key, more);
    }
  }

  /** The members with key `k` survive rejecting keys other than `k`. */
  lemma {:induction false} SelectByReject<T, K>(s: seq<T>, key: T -> K, ks: seq<K>, k: K)
    requires k !in ks
    ensures SelectBy(RejectBy(s, key, ks), key, k) == SelectBy(s, key, k)
    decreases |s|
  {
    if s != [] {
      var init, x := s[..|s| - 1], s[|s| - 1];
      SelectByReject(init, key, ks, k);
      var single: seq<T> := if key(x) !in ks then [x] else [];
      SelectByAppend(RejectBy(init, key, ks), single, key, k);
      SelectBySingle(x, key, k);
    }
  }

  /** The state of `groupAnagrams` between groups. */
  ghost predicate Grouped(arr: seq<string>, groups: seq<seq<string>>, tmp: seq<string>) {
    (forall g :: 0 <= g < |groups| ==> |groups[g]| >= 1) &&
    tmp == RejectBy(arr, Letters, FirstKeys(groups)) &&
    ClassesInOrder(arr, groups)
  }

  /** The state of the inner scan of `groupAnagrams`: `rest[..j]` is sorted into `tmp[..i]` and `group`. */
  ghost predicate Sorting(first: string, rest: seq<string>, j: int, tmp: seq<string>, i: int, group: seq<string>) {
    0 <= i <= |tmp| && 0 <= j <= |rest| &&
    tmp[..i] == RejectBy(rest[..j], Letters, [Letters(first)]) &&
    tmp[i..] == rest[j..] &&
    group == [first] + SelectBy(rest[..j], Letters, Letters(first))
  }

  lemma SortingStart(first: string, rest: seq<string>)
    ensures Sorting(first, rest, 0, rest, 0, [first])
  {
    assert rest[..0] == [];
  }

  /** At the end of the scan, `tmp` holds what is not an anagram of `first` and `group` what is. */
  lemma SortingDone(first: string, rest: seq<string>, j: int, tmp: seq<string>, i: int, group: seq<string>)
    requires Sorting(first, rest, j, tmp, i, group) && i >= |tmp|
    ensures tmp == RejectBy(rest, Letters, [Letters(first)])
    ensures group == [first] + SelectBy(rest, Letters, Letters(first))
  {
    assert j == |rest| && rest[..j] == rest && tmp[..i] == tmp;
  }

  lemma SortingStep(first: string, rest: seq<string>, j: int, tmp: seq<string>, i: int, group: seq<string>, same: bool)
    requires Sorting(first, rest, j, tmp, i, group) && i < |tmp|
    requires same <==> Anagrams(first, tmp[i])
    ensures same ==> Sorting(first, rest, j + 1, tmp[..i] + tmp[i + 1..], i, group + [tmp[i]])
    ensures !same ==> Sorting(first, rest, j + 1, tmp, i + 1, group)
  {
    assert rest[j] == tmp[i] by { assert tmp[i..][0] == rest[j..][0]; }
    assert tmp[i + 1..] == rest[j + 1..] by { assert tmp[i + 1..] == tmp[i..][1..]; }
    if same {
      SortingTakes(first, rest, j, tmp, i, group);
    } else {
      SortingSkips(first, rest, j, tmp, i, group);
    }
  }

  lemma SortingTakes(first: string, rest: seq<string>, j: int, tmp: seq<string>, i: int, group: seq<string>)
    requires Sorting(first, rest, j, tmp, i, group) && i < |tmp| && j < |rest|
    requires rest[j] == tmp[i] && tmp[i + 1..] == rest[j + 1..] && Letters(tmp[i]) == Letters(first)
    ensures Sorting(first, rest, j + 1, tmp[..i] + tmp[i + 1..], i, group + [tmp[i]])
  {
    RejectBySnoc(rest, Letters, [Letters(first)], j);
    SelectBySnoc(rest, Letters, Letters(first), j);
    var tmp' := tmp[..i] + tmp[i + 1..];
    assert tmp'[..i] == tmp[..i];
    assert tmp'[i..] == tmp[i + 1..];
  }

  lemma SortingSkips(first: string, rest: seq<string>, j: int, tmp: seq<string>, i: int, group: seq<string>)
    requires Sorting(first, rest, j, tmp, i, group) && i < |tmp| && j < |rest|
    requires rest[j] == tmp[i] && tmp[i + 1..] == rest[j + 1..] && Letters(tmp[i]) != Letters(first)
    ensures Sorting(first, rest, j + 1, tmp, i + 1, group)
  {
    var x := rest[j];
    assert Letters(x) !in [Letters(first)];
    RejectBySnoc(rest, Letters, [Letters(first)], j);
    assert RejectBy(rest[..j + 1], Letters, [Letters(first)]) == tmp[..i] + [x];
    SelectBySnoc(rest, Letters, Letters(first), j);
    assert SelectBy(rest[..j + 1], Letters, Letters(first)) == SelectBy(rest[..j], Letters, Letters(first));
    assert tmp[..i + 1] == tmp[..i] + [x];
  }

  /** The new group is every anagram of its first member in the input. */
  lemma GroupIsClass(arr: seq<string>, ks: seq<multiset<char>>, tmp: seq<string>)
    requires tmp == RejectBy(arr, Letters, ks) && tmp != []
    ensures [tmp[0]] + SelectBy(tmp[1..], Letters, Letters(tmp[0])) == SelectBy(arr, Letters, Letters(tmp[0]))
  {
    var first := tmp[0];
    RejectByMembers(arr, Letters, ks);
    assert tmp == [first] + tmp[1..];
    SelectByAppend([first], tmp[1..], Letters, Letters(first));
    SelectBySingle(first, Letters, Letters(first));
    SelectByReject(arr, Letters, ks, Letters(first));
  }

  /** What is left is what neither an earlier first nor the new one is an anagram of. */
  lemma LeftoverIsReject(arr: seq<string>, ks: seq<multiset<char>>, tmp: seq<string>)
    requires tmp == RejectBy(arr, Letters, ks) && tmp != []
    ensures RejectBy(tmp[1..], Letters, [Letters(tmp[0])]) == RejectBy(arr, Letters, ks + [Letters(tmp[0])])
  {
    var first := tmp[0];
    assert tmp == [first] + tmp[1..];
    RejectByTwice(arr, Letters, ks, [Letters(first)]);
    RejectByAppend([first], tmp[1..], Letters, [Letters(first)]);
    RejectBySingle(first, Letters, [Letters(first)]);
  }

  lemma FirstKeysSnoc(groups: seq<seq<string>>, group: seq<string>)
    requires forall g :: 0 <= g < |groups| ==> |groups[g]| >= 1
    requires |group| >= 1
    ensures FirstKeys(groups + [group]) == FirstKeys(groups) + [Letters(group[0])]
  {
    assert (groups + [group])[..|groups|] == groups;
  }

  lemma ClassesInOrderSnoc(arr: seq<string>, groups: seq<seq<string>>, group: seq<string>)
    requires forall g :: 0 <= g < |groups| ==> |groups[g]| >= 1
    requires |group| >= 1 && ClassesInOrder(arr, groups)
    requires RejectBy(arr, Letters, FirstKeys(groups)) != [] && group[0] == RejectBy(arr, Letters, FirstKeys(groups))[0]
    requires group == SelectBy(arr, Letters, Letters(group[0]))
    ensures ClassesInOrder(arr, groups + [group])
  {
    assert (groups + [group])[..|groups|] == groups;
  }

  lemma GroupedStep(arr: seq<string>, groups: seq<seq<string>>, tmp: seq<string>, kept: seq<string>, group: seq<string>)
    requires Grouped(arr, groups, tmp) && tmp != []
    requires kept == RejectBy(tmp[1..], Letters, [Letters(tmp[0])])
    requires group == [tmp[0]] + SelectBy(tmp[1..], Letters, Letters(tmp[0]))
    ensures Grouped(arr, groups + [group], kept)
  {
    var ks := FirstKeys(groups);
    FirstKeysSnoc(groups, group);
    GroupIsClass(arr, ks, tmp);
    ClassesInOrderSnoc(arr, groups, group);
    LeftoverIsReject(arr, ks, tmp);
  }

  /**
   * `groupAnagrams`: repeatedly take the first string left, pull every
   * anagram of it out of the copy in order, and emit them as one group.
   * The groups are the anagram classes of the input in order of first
   * occurrence (ClassesInOrder), and no string is left ungrouped.
   */
  method GroupAnagrams(arr: seq<string>) returns (groups: seq<seq<string>>)
    ensures forall g :: 0 <= g < |groups| ==> |groups[g]| >= 1
    ensures ClassesInOrder(arr, groups)
    ensures RejectBy(arr, Letters, FirstKeys(groups)) == []
  {
    var tmp := arr;
    groups := [];
    assert FirstKeys(groups) == [];
    RejectByNothing(arr, Letters);
    while |tmp| > 0
      invariant Grouped(arr, groups, tmp)
      decreases |tmp|
    {
      ghost var before := tmp;
      var group;
      group, tmp := Gather(tmp[0], tmp[1..]);
      GroupedStep(arr, groups, before, tmp, group);
      groups := groups + [group];
    }
  }

  /**
   * The inner scan of `groupAnagrams`: walk the strings after `first`,
   * splicing each anagram of `first` out into the group and stepping over
   * the others.
   */
  method Gather(first: string, rest: seq<string>) returns (group: seq<string>, tmp: seq<string>)
    ensures group == [first] + SelectBy(rest, Letters, Letters(first))
    ensures tmp == RejectBy(rest, Letters, [Letters(first)])
  {
    group, tmp := [first], rest;
    ghost var j := 0;
    var i := 0;
    SortingStart(first, rest);
    while i < |tmp|
      invariant Sorting(first, rest, j, tmp, i, group)
      decreases |tmp| - i
    {
      var same := IsAnagram(first, tmp[i]);
      SortingStep(first, rest, j, tmp, i, group, same);
      if same {
        group := group + [tmp[i]];
        tmp := tmp[..i] + tmp[i + 1..];
      } else {
        i := i + 1;
      }
      j := j + 1;
    }
    SortingDone(first, rest, j, tmp, i, group);
  }

  // ---------------------------------------------------------------------------
  // Longest substring without repeating characters
  // ---------------------------------------------------------------------------

  /** value[a..b] repeats no character. */
  predicate Distinct(value: string, a: int, b: int)
    requires 0 <= a <= b <= |value|
  {
    forall p, q :: a <= p < q < b ==> value[p] != value[q]
  }

  /** The characters of value[lo..hi]. */
  function Chars(value: string, lo: int, hi: int): set<char>
    requires 0 <= lo <= hi <= |value|
  {
    set k | lo <= k < hi :: value[k]
  }

  /** No window of `value` that starts before `left` and ends at `end` is free of repeats. */
  ghost predicate NoEarlierStart(value: string, left: int, end: int)
    requires 0 <= left <= end <= |value|
  {
    forall a :: 0 <= a < left ==> !Distinct(value, a, end)
  }

  /**
   * The sliding window after `right` characters: value[left..right] repeats
   * no character, and no window ending at `right` starts further left.
   */
  ghost predicate Window(value: string, left: int, right: int) {
    0 <= left <= right <= |value| && Distinct(value, left, right) && NoEarlierStart(value, left, right)
  }

  /** While value[right] is still in the window, the window must shrink past its earlier copy. */
  lemma ShrinkWindow(value: string, left: int, right: int)
    requires 0 <= left <= right < |value| && Distinct(value, left, right)
    requires NoEarlierStart(value, left, right + 1)
    requires value[right] in Chars(value, left, right)
    ensures left < right
    ensures Chars(value, left, right) - {value[left]} == Chars(value, left + 1, right)
    ensures NoEarlierStart(value, left + 1, right + 1)
  {
    var end := right + 1;
    var k :| left <= k < right && value[k] == value[right];
    forall a | 0 <= a < left + 1 ensures !Distinct(value, a, end) {
      if a == left { assert value[k] == value[right]; }
    }
    forall c | c in Chars(value, left, right) - {value[left]} ensures c in Chars(value, left + 1, right) {
      var m :| left <= m < right && value[m] == c;
      assert m != left;
    }
  }

  /** Once value[right] is outside the window, it can join. */
  lemma GrowWindow(value: string, left: int, right: int)
    requires 0 <= left <= right < |value| && Distinct(value, left, right)
    requires NoEarlierStart(value, left, right + 1)
    requires value[right] !in Chars(value, left, right)
    ensures Window(value, left, right + 1)
    ensures Chars(value, left, right + 1) == Chars(value, left, right) + {value[right]}
  {
    forall p | left <= p < right ensures value[p] != value[right] {
      assert value[p] in Chars(value, left, right);
    }
  }

  /** A window with a repeat still has it when it grows on the right. */
  lemma NotDistinctExtends(value: string, left: int, right: int)
    requires Window(value, left, right) && right < |value|
    ensures NoEarlierStart(value, left, right + 1)
  {
    var end := right + 1;
    forall a | 0 <= a < left ensures !Distinct(value, a, end) {
      assert !Distinct(value, a, right);
    }
  }

  /** Every window ending at `end` that repeats nothing starts at or after `left`. */
  lemma WindowBound(value: string, left: int, end: int)
    requires Window(value, left, end)
    ensures forall a :: 0 <= a <= end && Distinct(value, a, end) ==> left <= a
  {
  }

  /**
   * `longestUniqueSubstringLength`: the length of a longest substring with no
   * repeated character.
   */
  method LongestUniqueSubstringLength(value: string) returns (maxLength: nat)
    ensures exists a, b :: 0 <= a <= b <= |value| && b - a == maxLength && Distinct(value, a, b)
    ensures forall a, b :: 0 <= a <= b <= |value| && Distinct(value, a, b) ==> b - a <= maxLength
  {
    var window: set<char> := {};
    var left := 0;
    maxLength := 0;
    ghost var start := 0;
    for right := 0 to |value|
      invariant Window(value, left, right) && window == Chars(value, left, right)
      invariant 0 <= start && start + maxLength <= right && Distinct(value, start, start + maxLength)
      invariant forall a, b :: 0 <= a <= b <= right && Distinct(value, a, b) ==> b - a <= maxLength
    {
      var c := value[right];
      NotDistinctExtends(value, left, right);
      while c in window
        invariant 0 <= left <= right && Distinct(value, left, right) && window == Chars(value, left, right)
        invariant NoEarlierStart(value, left, right + 1)
        decreases right - left
      {
        ShrinkWindow(value, left, right);
        window := window - {value[left]};
        left := left + 1;
      }
      GrowWindow(value, left, right);
      WindowBound(value, left, right + 1);
      window := window + {c};
      if right - left + 1 > maxLength {
        start := left;
      }
      maxLength := Max(maxLength, right - left + 1);
    }
    assert Distinct(value, start, start + maxLength);
  }

  /**
   * `longestUniqueSubstring`: the same window kept in a map from character to
   * index. It returns the leftmost longest substring with no repeated
   * character: no such substring is longer, and none as long starts earlier.
   */
  method LongestUniqueSubstring(value: string) returns (longest: string)
    ensures exists a, b :: 0 <= a <= b <= |value| && longest == value[a..b] && Distinct(value, a, b) &&
              forall a', b' :: 0 <= a' <= b' <= |value| && Distinct(value, a', b') ==>
                b' - a' < b - a || (b' - a' == b - a && a <= a')
  {
    var seen: map<char, nat> := map[];
    longest := "";
    var left := 0;
    ghost var start := 0;
    for right := 0 to |value|
      invariant Window(value, left, right) && seen.Keys == Chars(value, left, right)
      invariant 0 <= start && start + |longest| <= right && longest == value[start..start + |longest|]
      invariant Distinct(value, start, start + |longest|)
      invariant forall a, b :: 0 <= a <= b <= right && Distinct(value, a, b) ==>
                  b - a < |longest| || (b - a == |longest| && start <= a)
    {
      var c := value[right];
      NotDistinctExtends(value, left, right);
      while c in seen
        invariant 0 <= left <= right && Distinct(value, left, right) && seen.Keys == Chars(value, left, right)
        invariant NoEarlierStart(value, left, right + 1)
        decreases right - left
      {
        ShrinkWindow(value, left, right);
        seen := seen - {value[left]};
        left := left + 1;
      }
      GrowWindow(value, left, right);
      WindowBound(value, left, right + 1);
      seen := seen[c := right];
      var candidate := value[left..right + 1];
      if |candidate| > |longest| {
        longest := candidate;
        start := left;
      }
    }
    assert Distinct(value, start, start + |longest|);
  }

  // ---------------------------------------------------------------------------
  // Valid parentheses
  // ---------------------------------------------------------------------------

  predicate IsOpening(c: char) { c == '{' || c == '[' || c == '(' || c == '<' }

  predicate IsBracket(c: char) { IsOpening(c) || c == '}' || c == ']' || c == ')' || c == '>' }

  /** `o` opens what `c` closes: the four pairs of the lookup table. */
  predicate Matches(o: char, c: char) {
    (o == '{' && c == '}') || (o == '[' && c == ']') || (o == '(' && c == ')') || (o == '<' && c == '>')
  }

  /** `value.replace(/[^\{\}\[\]\(\)\<\>]/g, "")`: the brackets of `s`, in order. */
  function Brackets(s: string): (r: string)
    ensures |r| <= |s|
    ensures forall i :: 0 <= i < |r| ==> IsBracket(r[i])
    decreases |s|
  {
    if s == [] then [] else if IsBracket(s[0]) then [s[0]] + Brackets(s[1..]) else Brackets(s[1..])
  }

  /** One character is kept exactly when it is a bracket. */
  lemma BracketsSingle(c: char)
    ensures Brackets([c]) == if IsBracket(c) then [c] else []
  {
    assert [c][1..] == [];
  }

  /** Filtering a concatenation filters each part: every bracket is kept, in order. */
  lemma {:induction false} BracketsAppend(a: string, b: string)
    ensures Brackets(a + b) == Brackets(a) + Brackets(b)
    decreases |a|
  {
    if a != [] {
      assert (a + b)[0] == a[0] && (a + b)[1..] == a[1..] + b;
      BracketsAppend(a[1..], b);
    } else {
      assert a + b == b;
    }
  }

  /**
   * Properly nested brackets, by the grammar: empty, or an opening bracket,
   * a nested part, its closing bracket and the rest.
   */
  ghost predicate Balanced(t: string)
    decreases |t|
  {
    t == [] ||
    exists k :: 1 <= k < |t| && Matches(t[0], t[k]) && Balanced(t[1..k]) && Balanced(t[k + 1..])
  }

  /**
   * The stack machine of `validParentheses` on `t`, from a stack of open
   * brackets (innermost last): `None` when a closing bracket finds an empty
   * stack or the wrong opening bracket, otherwise the stack left at the end.
   */
  function Run(stack: seq<char>, t: string): Option<seq<char>>
    decreases |t|
  {
    if t == [] then Some(stack)
    else if IsOpening(t[0]) then Run(stack + [t[0]], t[1..])
    else if stack != [] && Matches(stack[|stack| - 1], t[0]) then Run(stack[..|stack| - 1], t[1..])
    else None
  }

  lemma RunOpen(stack: seq<char>, o: char, t: string)
    requires IsOpening(o)
    ensures Run(stack, [o] + t) == Run(stack + [o], t)
  {
    assert ([o] + t)[1..] == t;
  }

  lemma RunClose(stack: seq<char>, o: char, c: char, t: string)
    requires Matches(o, c)
    ensures Run(stack + [o], [c] + t) == Run(stack, t)
  {
    assert ([c] + t)[1..] == t;
    assert (stack + [o])[..|stack|] == stack;
  }

  lemma SplitAt(t: string, k: int, rest: string)
    requires 1 <= k < |t|
    ensures t + rest == [t[0]] + (t[1..k] + ([t[k]] + (t[k + 1..] + rest)))
  {
    assert t == [t[0]] + t[1..k] + [t[k]] + t[k + 1..];
  }

  /** A balanced stretch leaves the stack as it found it. */
  lemma {:induction false} RunBalanced(t: string, stack: seq<char>, rest: string)
    requires Balanced(t)
    ensures Run(stack, t + rest) == Run(stack, rest)
    decreases |t|
  {
    if t == [] {
      assert t + rest == rest;
    } else {
      var k :| 1 <= k < |t| && Matches(t[0], t[k]) && Balanced(t[1..k]) && Balanced(t[k + 1..]);
      var o, c, inner, after := t[0], t[k], t[1..k], t[k + 1..];
      SplitAt(t, k, rest);
      RunOpen(stack, o, inner + ([c] + (after + rest)));
      RunBalanced(inner, stack + [o], [c] + (after + rest));
      RunClose(stack, o, c, after + rest);
      RunBalanced(after, stack, rest);
    }
  }

  /** Balanced when the first bracket is closed at `k`, with balanced stretches inside and after. */
  lemma BalancedAt(t: string, k: int)
    requires 1 <= k < |t| && Matches(t[0], t[k]) && Balanced(t[1..k]) && Balanced(t[k + 1..])
    ensures Balanced(t)
  {
  }

  lemma DropSlices(t: string, k1: int)
    requires 0 <= k1 < |t| - 1
    ensures t[1..][k1] == t[k1 + 1] && t[1..][..k1] == t[1..k1 + 1] && t[1..][k1 + 1..] == t[k1 + 2..]
  {
  }

  /** The prefix up to `k` is balanced when its first bracket closes at `j` between balanced stretches. */
  lemma BalancedPrefix(t: string, j: int, k: int)
    requires 1 <= j < k <= |t| && Matches(t[0], t[j]) && Balanced(t[1..j]) && Balanced(t[j + 1..k])
    ensures Balanced(t[..k])
  {
    assert t[..k][1..j] == t[1..j] && t[..k][j + 1..] == t[j + 1..k];
    BalancedAt(t[..k], j);
  }

  lemma ShiftSlices(t: string, j: int, k2: int)
    requires 0 <= j && 0 <= k2 < |t| - j
    ensures t[j..][k2] == t[j + k2] && t[j..][..k2] == t[j..j + k2] && t[j..][k2 + 1..] == t[j + k2 + 1..]
  {
  }

  /**
   * `t[k]` closes the innermost bracket of the non-empty `stack` after a
   * balanced stretch, and the rest of `t` empties what is left.
   */
  ghost predicate ClosesAt(stack: seq<char>, t: string, k: int)
    requires stack != []
  {
    0 <= k < |t| && Matches(stack[|stack| - 1], t[k]) && Balanced(t[..k]) &&
    Run(stack[..|stack| - 1], t[k + 1..]) == Some([])
  }

  /** A closing bracket first: it must close the innermost one. */
  lemma ClosesFirst(stack: seq<char>, t: string)
    requires stack != [] && t != [] && !IsOpening(t[0]) && Run(stack, t) == Some([])
    ensures ClosesAt(stack, t, 0)
  {
    assert t[..0] == [];
  }

  /**
   * An opening bracket first, closed at `k1 + 1`; the innermost bracket of
   * `stack` is then closed `k2` places later.
   */
  lemma ClosesAfter(stack: seq<char>, t: string, k1: int, k2: int)
    requires stack != [] && t != [] && IsOpening(t[0])
    requires ClosesAt(stack + [t[0]], t[1..], k1)
    requires 0 <= k1 < |t| - 1 && ClosesAt(stack, t[k1 + 2..], k2)
    ensures ClosesAt(stack, t, k1 + 2 + k2)
  {
    assert (stack + [t[0]])[..|stack|] == stack;
    DropSlices(t, k1);
    var j := k1 + 1;
    ShiftSlices(t, j + 1, k2);
    BalancedPrefix(t, j, j + 1 + k2);
  }

  /** A run that empties a non-empty stack closes its innermost bracket somewhere. */
  lemma {:induction false} RunCloses(stack: seq<char>, t: string)
    requires stack != [] && Run(stack, t) == Some([])
    ensures exists k :: ClosesAt(stack, t, k)
    decreases |t|
  {
    if IsOpening(t[0]) {
      var o := t[0];
      assert t == [o] + t[1..];
      RunOpen(stack, o, t[1..]);
      RunCloses(stack + [o], t[1..]);
      var k1 :| ClosesAt(stack + [o], t[1..], k1);
      assert (stack + [o])[..|stack|] == stack;
      DropSlices(t, k1);
      RunCloses(stack, t[k1 + 2..]);
      var k2 :| ClosesAt(stack, t[k1 + 2..], k2);
      ClosesAfter(stack, t, k1, k2);
    } else {
      ClosesFirst(stack, t);
    }
  }

  /** Only balanced bracket strings empty the stack from an empty start. */
  lemma {:induction false} RunSound(t: string)
    requires Run([], t) == Some([])
    ensures Balanced(t)
    decreases |t|
  {
    if t != [] {
      var o := t[0];
      assert t == [o] + t[1..];
      RunOpen([], o, t[1..]);
      assert [] + [o] == [o];
      RunCloses([o], t[1..]);
      var k :| ClosesAt([o], t[1..], k);
      assert [o][..0] == [];
      DropSlices(t, k);
      RunSound(t[k + 2..]);
      BalancedAt(t, k + 1);
    }
  }

  /** The stack machine accepts exactly the balanced bracket strings. */
  lemma AcceptsBalanced(t: string)
    ensures Run([], t) == Some([]) <==> Balanced(t)
  {
    if Balanced(t) {
      RunBalanced(t, [], []);
      assert t + [] == t;
    }
    if Run([], t) == Some([]) {
      RunSound(t);
    }
  }

  /**
   * `validParentheses`: true exactly when the brackets of `value`, other
   * characters ignored, are properly nested.
   */
  method ValidParentheses(value: string) returns (valid: bool)
    ensures valid <==> Balanced(Brackets(value))
  {
    var stack: seq<char> := [];
    var tmp := Brackets(value);
    AcceptsBalanced(tmp);
    for i := 0 to |tmp|
      invariant Run([], tmp) == Run(stack, tmp[i..])
    {
      var c := tmp[i];
      assert tmp[i..][0] == c && tmp[i..][1..] == tmp[i + 1..];
      if IsOpening(c) {
        stack := stack + [c];
      } else {
        if stack == [] {
          return false;
        }
        var top := stack[|stack| - 1];
        stack := stack[..|stack| - 1];
        if !Matches(top, c) {
          return false;
        }
      }
    }
    assert tmp[|tmp|..] == [];
    valid := stack == [];
  }

  // ---------------------------------------------------------------------------
  // Merge intervals
  // ---------------------------------------------------------------------------

  /** An interval [start, end] of the input; the inner two-element arrays become values. */
  datatype Interval = Interval(start: int, end: int)

  /** The points of the number line an interval covers, ends included; fractional points are points too. */
  predicate Contains(iv: Interval, x: real) { iv.start as real <= x <= iv.end as real }

  ghost predicate Covers(s: seq<Interval>, x: real) {
    exists k :: 0 <= k < |s| && Contains(s[k], x)
  }

  predicate SortedByStart(s: seq<Interval>) {
    forall p, q :: 0 <= p < q < |s| ==> s[p].start <= s[q].start
  }

  /** Consecutive intervals are in start order and separated by a gap. */
  predicate Separated(s: seq<Interval>) {
    forall k :: 0 <= k < |s| - 1 ==> s[k].start <= s[k + 1].start && s[k].end < s[k + 1].start
  }

  lemma CoversAppend(a: seq<Interval>, b: seq<Interval>)
    ensures forall x :: Covers(a + b, x) <==> Covers(a, x) || Covers(b, x)
  {
    forall x | Covers(a + b, x) ensures Covers(a, x) || Covers(b, x) {
      var k :| 0 <= k < |a + b| && Contains((a + b)[k], x);
      if k < |a| { assert Contains(a[k], x); } else { assert Contains(b[k - |a|], x); }
    }
    forall x | Covers(a, x) ensures Covers(a + b, x) {
      var k :| 0 <= k < |a| && Contains(a[k], x);
      assert (a + b)[k] == a[k];
    }
    forall x | Covers(b, x) ensures Covers(a + b, x) {
      var k :| 0 <= k < |b| && Contains(b[k], x);
      assert (a + b)[|a| + k] == b[k];
    }
  }

  /** Reordering intervals does not change what they cover. */
  lemma CoversPermutation(a: seq<Interval>, b: seq<Interval>)
    requires multiset(a) == multiset(b)
    ensures forall x :: Covers(a, x) <==> Covers(b, x)
  {
    forall x | Covers(a, x) ensures Covers(b, x) {
      var k :| 0 <= k < |a| && Contains(a[k], x);
      assert a[k] in multiset(b);
      var m :| 0 <= m < |b| && b[m] == a[k];
    }
    forall x | Covers(b, x) ensures Covers(a, x) {
      var k :| 0 <= k < |b| && Contains(b[k], x);
      assert b[k] in multiset(a);
      var m :| 0 <= m < |a| && a[m] == b[k];
    }
  }

  /** Two overlapping or touching intervals, the second starting no earlier, cover what their merge covers. */
  lemma MergeTwo(prev: Interval, curr: Interval)
    requires prev.start <= curr.start <= prev.end
    ensures forall x :: Contains(Interval(prev.start, Max(prev.end, curr.end)), x) <==> Contains(prev, x) || Contains(curr, x)
  {
  }

  /** [1, 3] and [4, 5] leave the gap (3, 4) open, so they are not merged: [1, 5] would cover 3.5. */
  lemma GapKeepsApart()
    ensures !Covers([Interval(1, 3), Interval(4, 5)], 3.5)
    ensures Covers([Interval(1, 5)], 3.5)
  {
    assert Contains([Interval(1, 5)][0], 3.5);
  }

  /**
   * Insertion of `s[j]` into the sorted `s[..i + 1]` in progress: leaving
   * out position `j`, the stretch is in start order, and the element at `j`
   * starts strictly before everything after it.
   */
  ghost predicate Inserting(s: seq<Interval>, i: int, j: int) {
    0 <= j <= i < |s| &&
    (forall p, q :: 0 <= p < q <= i && p != j && q != j ==> s[p].start <= s[q].start) &&
    (forall q :: j < q <= i ==> s[j].start < s[q].start)
  }

  lemma InsertStart(s: seq<Interval>, i: int)
    requires 0 <= i < |s| && SortedByStart(s[..i])
    ensures Inserting(s, i, i)
  {
    assert forall p :: 0 <= p < i ==> s[..i][p] == s[p];
  }

  lemma InsertSwap(s: seq<Interval>, i: int, j: int)
    requires Inserting(s, i, j) && 0 < j && s[j - 1].start > s[j].start
    ensures Inserting(s[j - 1 := s[j]][j := s[j - 1]], i, j - 1)
    ensures multiset(s[j - 1 := s[j]][j := s[j - 1]]) == multiset(s)
  {
  }

  lemma InsertDone(s: seq<Interval>, i: int, j: int)
    requires Inserting(s, i, j) && (j == 0 || s[j - 1].start <= s[j].start)
    ensures SortedByStart(s[..i + 1])
  {
  }

  /** `arr.sort((a, b) => a[0] - b[0])`: an insertion sort by start, in place. */
  method SortByStart(a: array<Interval>)
    modifies a
    ensures SortedByStart(a[..])
    ensures multiset(a[..]) == multiset(old(a[..]))
  {
    for i := 0 to a.Length
      invariant SortedByStart(a[..i])
      invariant multiset(a[..]) == multiset(old(a[..]))
    {
      InsertStart(a[..], i);
      var j := i;
      while j > 0 && a[j - 1].start > a[j].start
        invariant Inserting(a[..], i, j)
        invariant multiset(a[..]) == multiset(old(a[..]))
        decreases j
      {
        InsertSwap(a[..], i, j);
        ghost var before := a[..];
        a[j - 1], a[j] := a[j], a[j - 1];
        assert a[..] == before[j - 1 := before[j]][j := before[j - 1]];
        j := j - 1;
      }
      InsertDone(a[..], i, j);
    }
    assert a[..] == a[..a.Length];
  }

  /** The merge loop's state: `merged` plus the interval being grown cover the first i sorted intervals. */
  ghost predicate MergeState(a: seq<Interval>, sorted: seq<Interval>, merged: seq<Interval>, p: int, i: int) {
    |a| == |sorted| && 0 <= p < i <= |a| &&
    (forall q :: p < q < |a| ==> a[q] == sorted[q]) &&
    (forall q :: 0 <= q < |a| ==> a[q].start == sorted[q].start && a[q].end >= sorted[q].end) &&
    Separated(merged + [a[p]]) &&
    forall x :: Covers(merged + [a[p]], x) <==> Covers(sorted[..i], x)
  }

  lemma CoversSingle(iv: Interval)
    ensures forall x :: Covers([iv], x) <==> Contains(iv, x)
  {
    forall x | Contains(iv, x) ensures Covers([iv], x) {
      assert [iv][0] == iv;
    }
  }

  /** Growing the current interval over the next sorted one that overlaps or touches it. */
  lemma MergeGrow(a: seq<Interval>, sorted: seq<Interval>, merged: seq<Interval>, p: int, i: int)
    requires MergeState(a, sorted, merged, p, i) && i < |a| && SortedByStart(sorted)
    requires a[p].end >= a[i].start
    ensures MergeState(a[p := Interval(a[p].start, Max(a[p].end, a[i].end))], sorted, merged, p, i + 1)
  {
    var prev, curr := a[p], a[i];
    var grown := Interval(prev.start, Max(prev.end, curr.end));
    var a' := a[p := grown];
    assert forall q :: p < q < |a'| ==> a'[q] == sorted[q];
    assert forall q :: 0 <= q < |a'| ==> a'[q].start == sorted[q].start && a'[q].end >= sorted[q].end;
    assert Separated(merged + [grown]) by {
      forall k | 0 <= k < |merged + [grown]| - 1
        ensures (merged + [grown])[k].start <= (merged + [grown])[k + 1].start
        ensures (merged + [grown])[k].end < (merged + [grown])[k + 1].start
      {
        assert (merged + [grown])[k] == (merged + [prev])[k];
        if k + 1 < |merged| {
          assert (merged + [grown])[k + 1] == (merged + [prev])[k + 1];
        } else {
          assert (merged + [prev])[k + 1] == prev && (merged + [grown])[k + 1] == grown;
        }
      }
    }
    assert sorted[..i + 1] == sorted[..i] + [curr];
    CoversAppend(sorted[..i], [curr]);
    CoversAppend(merged, [prev]);
    CoversAppend(merged, [grown]);
    CoversSingle(prev);
    CoversSingle(curr);
    CoversSingle(grown);
    MergeTwo(prev, curr);
    assert forall x :: Covers(merged + [a'[p]], x) <==> Covers(sorted[..i + 1], x);
  }

  /** Emitting the current interval when the next sorted one starts after its end. */
  lemma MergePush(a: seq<Interval>, sorted: seq<Interval>, merged: seq<Interval>, p: int, i: int)
    requires MergeState(a, sorted, merged, p, i) && i < |a| && SortedByStart(sorted)
    requires a[p].end < a[i].start
    ensures MergeState(a, sorted, merged + [a[p]], i, i + 1)
  {
    var curr := a[i];
    assert sorted[..i + 1] == sorted[..i] + [curr];
    CoversAppend(sorted[..i], [curr]);
    CoversAppend(merged + [a[p]], [curr]);
  }

  lemma MergeDone(a: seq<Interval>, sorted: seq<Interval>, merged: seq<Interval>, p: int)
    requires MergeState(a, sorted, merged, p, |a|)
    ensures Separated(merged + [a[p]])
    ensures forall x :: Covers(merged + [a[p]], x) <==> Covers(sorted, x)
    ensures forall q :: 0 <= q < |a| ==> a[q].start == sorted[q].start && a[q].end >= sorted[q].end
  {
    assert sorted[..|a|] == sorted;
  }

  /**
   * `mergeIntervals` on a non-empty array: sort it in place by start, then
   * grow the current interval while the next one starts no later than its
   * end (writing the new end into the input's interval), else emit it. The
   * result is in start order with gaps between neighbours and covers exactly
   * what the input covers; the input is left sorted with some ends raised.
   */
  method MergeIntervals(arr: array<Interval>) returns (merged: seq<Interval>)
    requires arr.Length > 0
    modifies arr
    ensures |merged| >= 1 && Separated(merged)
    ensures forall x :: Covers(merged, x) <==> Covers(old(arr[..]), x)
    ensures exists sorted: seq<Interval> :: multiset(sorted) == multiset(old(arr[..])) && SortedByStart(sorted) &&
              |sorted| == arr.Length &&
              forall q :: 0 <= q < arr.Length ==> arr[q].start == sorted[q].start && arr[q].end >= sorted[q].end
  {
    SortByStart(arr);
    ghost var sorted := arr[..];
    merged := [];
    var p := 0;
    assert merged + [arr[p]] == sorted[..1];
    for i := 1 to arr.Length
      invariant MergeState(arr[..], sorted, merged, p, i)
    {
      if arr[p].end >= arr[i].start {
        MergeGrow(arr[..], sorted, merged, p, i);
        arr[p] := Interval(arr[p].start, Max(arr[p].end, arr[i].end));
      } else {
        MergePush(arr[..], sorted, merged, p, i);
        merged := merged + [arr[p]];
        p := i;
      }
    }
    MergeDone(arr[..], sorted, merged, p);
    merged := merged + [arr[p]];
    CoversPermutation(sorted, old(arr[..]));
    assert forall q :: 0 <= q < arr.Length ==> arr[q] == arr[..][q];
  }

  // ---------------------------------------------------------------------------
  // Longest palindromic substring
  // ---------------------------------------------------------------------------

  /** `str.split("").reverse().join("") === str`. */
  predicate IsPalindrome(s: string) { s == Reverse(s) }

  /** The leftmost longest palindromes found so far, over the starts before `left` and, at `left`, the ends before `right`. */
  ghost predicate BestPalindrome(s: string, left: int, right: int, start: int, result: string) {
    0 <= start <= left <= |s| && start + |result| <= |s| &&
    result == s[start..start + |result|] && IsPalindrome(result) &&
    forall a, b :: 0 <= a <= b <= |s| && (a < left || (a == left && b < right)) && IsPalindrome(s[a..b]) ==>
      b - a < |result| || (b - a == |result| && start <= a)
  }

  lemma PalindromeEnter(s: string, left: int, start: int, result: string)
    requires BestPalindrome(s, left, 0, start, result) && left < |s|
    ensures BestPalindrome(s, left, left + 1, start, result)
  {
  }

  /** One end tried at `left`: keep the window when it is a strictly longer palindrome. */
  lemma PalindromeStep(s: string, left: int, right: int, start: int, result: string)
    requires BestPalindrome(s, left, right, start, result) && left < right <= |s|
    ensures IsPalindrome(s[left..right]) && right - left > |result| ==> BestPalindrome(s, left, right + 1, left, s[left..right])
    ensures !(IsPalindrome(s[left..right]) && right - left > |result|) ==> BestPalindrome(s, left, right + 1, start, result)
  {
  }

  lemma PalindromeNext(s: string, left: int, start: int, result: string)
    requires BestPalindrome(s, left, |s| + 1, start, result) && left < |s|
    ensures BestPalindrome(s, left + 1, 0, start, result)
  {
  }

  /** No start at or after `left` leaves room for anything longer. */
  lemma PalindromeDone(s: string, left: int, start: int, result: string)
    requires BestPalindrome(s, left, 0, start, result) && left >= |s| - |result|
    ensures forall a, b :: 0 <= a <= b <= |s| && IsPalindrome(s[a..b]) ==>
              b - a < |result| || (b - a == |result| && start <= a)
  {
  }

  /**
   * `longestPalindromicSubstring`: try every start from the left (while a
   * longer palindrome can still fit) and every end after it, keeping a
   * palindrome only when it is strictly longer. The result is the leftmost
   * longest palindromic substring, "" for "".
   */
  method LongestPalindromicSubstring(s: string) returns (result: string)
    ensures exists a, b :: 0 <= a <= b <= |s| && result == s[a..b] && IsPalindrome(result) &&
              forall a', b' :: 0 <= a' <= b' <= |s| && IsPalindrome(s[a'..b']) ==>
                b' - a' < b - a || (b' - a' == b - a && a <= a')
  {
    if |s| == 1 {
      assert s[0..1] == s;
      return s;
    }
    var left := 0;
    result := "";
    ghost var start := 0;
    assert s[0..0] == "";
    while left < |s| - |result|
      invariant BestPalindrome(s, left, 0, start, result)
      decreases |s| - left
    {
      PalindromeEnter(s, left, start, result);
      for right := left + 1 to |s| + 1
        invariant BestPalindrome(s, left, right, start, result)
      {
        PalindromeStep(s, left, right, start, result);
        var substr := s[left..right];
        if IsPalindrome(substr) {
          if |substr| > |result| {
            result := substr;
            start := left;
          }
        }
      }
      PalindromeNext(s, left, start, result);
      left := left + 1;
    }
    PalindromeDone(s, left, start, result);
    assert result == s[start..start + |result|];
  }
}

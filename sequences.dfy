/**
 * Sequence operations standing for the JavaScript array idioms the case-data
 * code is built from: `xs.filter(p)`, counting equal values,
 * `[...new Set(xs)]` (distinct values in first-appearance order),
 * `xs.shift()` and lodash's `maxBy`.
 */
module Sequences {

  // ---------------------------------------------------------------------
  // filter

  /** `s.filter(p)`: the elements of `s` that satisfy `p`, in their order. */
  function Filter<T>(s: seq<T>, p: T -> bool): (r: seq<T>)
    ensures |r| <= |s|
    ensures forall x :: x in r ==> x in s && p(x)
    ensures forall x :: x in s && p(x) ==> x in r
    decreases |s|
  {
    if s == [] then []
    else
      assert s == s[..|s| - 1] + [s[|s| - 1]];
      var init := Filter(s[..|s| - 1], p);
      if p(s[|s| - 1]) then init + [s[|s| - 1]] else init
  }

  /** Appending one element extends the filtered sequence by it exactly when it passes. */
  lemma FilterSnoc<T>(s: seq<T>, x: T, p: T -> bool)
    ensures Filter(s + [x], p) == if p(x) then Filter(s, p) + [x] else Filter(s, p)
  {
    assert (s + [x])[..|s + [x]| - 1] == s;
  }

  /** Two predicates that agree on every element of `s` filter it alike. */
  lemma {:induction false} FilterCongruent<T>(s: seq<T>, p: T -> bool, q: T -> bool)
    requires forall x :: x in s ==> p(x) == q(x)
    ensures Filter(s, p) == Filter(s, q)
    decreases |s|
  {
    if s != [] {
      assert s == s[..|s| - 1] + [s[|s| - 1]];
      FilterCongruent(s[..|s| - 1], p, q);
    }
  }

  /** Filtering by a predicate every element satisfies keeps everything. */
  lemma {:induction false} FilterAll<T>(s: seq<T>, p: T -> bool)
    requires forall x :: x in s ==> p(x)
    ensures Filter(s, p) == s
    decreases |s|
  {
    if s != [] {
      assert s == s[..|s| - 1] + [s[|s| - 1]];
      FilterAll(s[..|s| - 1], p);
    }
  }

  /** Filtering by a predicate no element satisfies keeps nothing. */
  lemma {:induction false} FilterNone<T>(s: seq<T>, p: T -> bool)
    requires forall x :: x in s ==> !p(x)
    ensures Filter(s, p) == []
    decreases |s|
  {
    if s != [] {
      assert s == s[..|s| - 1] + [s[|s| - 1]];
      FilterNone(s[..|s| - 1], p);
    }
  }

  /** A predicate and its complement split `s` into two parts of total length `|s|`. */
  lemma {:induction false} FilterComplement<T>(s: seq<T>, p: T -> bool, q: T -> bool)
    requires forall x :: x in s ==> (q(x) <==> !p(x))
    ensures |Filter(s, p)| + |Filter(s, q)| == |s|
    decreases |s|
  {
    if s != [] {
      assert s == s[..|s| - 1] + [s[|s| - 1]];
      FilterComplement(s[..|s| - 1], p, q);
    }
  }

  /** Three predicates of which each element satisfies exactly one split `s` into three parts. */
  lemma {:induction false} FilterPartition3<T>(s: seq<T>, p: T -> bool, q: T -> bool, o: T -> bool)
    requires forall x :: x in s ==>
      (p(x) && !q(x) && !o(x)) || (!p(x) && q(x) && !o(x)) || (!p(x) && !q(x) && o(x))
    ensures |Filter(s, p)| + |Filter(s, q)| + |Filter(s, o)| == |s|
    decreases |s|
  {
    if s != [] {
      assert s == s[..|s| - 1] + [s[|s| - 1]];
      FilterPartition3(s[..|s| - 1], p, q, o);
    }
  }

  /** Filtering by `p` and then by `q` is filtering once by `pq`, their conjunction on `s`. */
  lemma {:induction false} FilterFilter<T>(s: seq<T>, p: T -> bool, q: T -> bool, pq: T -> bool)
    requires forall x :: x in s ==> (pq(x) <==> p(x) && q(x))
    ensures Filter(Filter(s, p), q) == Filter(s, pq)
    decreases |s|
  {
    if s != [] {
      var init, x := s[..|s| - 1], s[|s| - 1];
      assert s == init + [x];
      FilterFilter(init, p, q, pq);
      FilterSnoc(init, x, p);
      FilterSnoc(Filter(init, p), x, q);
      FilterSnoc(init, x, pq);
    }
  }

  /** A weaker predicate keeps at least as many elements. */
  lemma {:induction false} FilterMonotone<T>(s: seq<T>, p: T -> bool, q: T -> bool)
    requires forall x :: x in s && p(x) ==> q(x)
    ensures |Filter(s, p)| <= |Filter(s, q)|
    decreases |s|
  {
    if s != [] {
      assert s == s[..|s| - 1] + [s[|s| - 1]];
      FilterMonotone(s[..|s| - 1], p, q);
    }
  }

  /** `s.filter(p)[0]` is the first element of `s` that satisfies `p`. */
  lemma {:induction false} FilterFirst<T>(s: seq<T>, p: T -> bool, k: nat)
    requires k < |s| && p(s[k])
    requires forall j :: 0 <= j < k ==> !p(s[j])
    ensures |Filter(s, p)| > 0 && Filter(s, p)[0] == s[k]
    decreases |s|
  {
    var init := s[..|s| - 1];
    assert s == init + [s[|s| - 1]];
    if k == |s| - 1 {
      forall x | x in init ensures !p(x) {
        var j :| 0 <= j < |init| && init[j] == x;
        assert s[j] == x;
      }
      FilterNone(init, p);
    } else {
      FilterFirst(init, p, k);
    }
  }

  // ---------------------------------------------------------------------
  // counting equal values

  /** The number of positions of `s` holding `x`: `s.filter(y => y === x).length`. */
  function Count<T(==)>(s: seq<T>, x: T): (n: nat)
    ensures n <= |s|
    ensures n > 0 <==> x in s
    decreases |s|
  {
    if s == [] then 0
    else
      assert s == s[..|s| - 1] + [s[|s| - 1]];
      Count(s[..|s| - 1], x) + if s[|s| - 1] == x then 1 else 0
  }

  lemma CountSnoc<T>(s: seq<T>, y: T, x: T)
    ensures Count(s + [y], x) == Count(s, x) + if y == x then 1 else 0
  {
    assert (s + [y])[..|s + [y]| - 1] == s;
  }

  /** `Count` agrees with the multiplicity of `x` in the multiset of `s`. */
  lemma {:induction false} CountIsMultiplicity<T>(s: seq<T>, x: T)
    ensures Count(s, x) == multiset(s)[x]
    decreases |s|
  {
    if s != [] {
      var init := s[..|s| - 1];
      assert s == init + [s[|s| - 1]];
      CountIsMultiplicity(init, x);
      assert multiset(s) == multiset(init) + multiset{s[|s| - 1]};
    }
  }

  // ---------------------------------------------------------------------
  // [...new Set(s)]

  predicate NoDuplicates<T(==)>(s: seq<T>) {
    forall i, j :: 0 <= i < j < |s| ==> s[i] != s[j]
  }

  /** `[...new Set(s)]`: each value of `s` once, in order of first appearance. */
  function Distinct<T(==)>(s: seq<T>): (r: seq<T>)
    ensures NoDuplicates(r)
    ensures forall x :: x in r ==> x in s
    ensures forall x :: x in s ==> x in r
    ensures |r| <= |s|
    decreases |s|
  {
    if s == [] then []
    else
      assert s == s[..|s| - 1] + [s[|s| - 1]];
      var init := Distinct(s[..|s| - 1]);
      if s[|s| - 1] in init then init else init + [s[|s| - 1]]
  }

  lemma DistinctSnoc<T>(s: seq<T>, y: T)
    ensures Distinct(s + [y]) == if y in s then Distinct(s) else Distinct(s) + [y]
  {
    assert (s + [y])[..|s + [y]| - 1] == s;
  }

  /** The position of the first occurrence of `x` in `s` (`s.indexOf(x)`). */
  function FirstIndex<T(==)>(s: seq<T>, x: T): (k: nat)
    requires x in s
    ensures k < |s| && s[k] == x && x !in s[..k]
    decreases |s|
  {
    if s[0] == x then 0
    else
      assert s == [s[0]] + s[1..];
      var k := FirstIndex(s[1..], x);
      assert s[..k + 1] == [s[0]] + s[1..][..k];
      k + 1
  }

  /** The first occurrence is the only position holding `x` with no `x` before it. */
  lemma FirstIndexUnique<T>(s: seq<T>, x: T, k: nat)
    requires k < |s| && s[k] == x && x !in s[..k]
    ensures FirstIndex(s, x) == k
  {
  }

  lemma FirstIndexSnoc<T>(s: seq<T>, y: T, z: T)
    requires z in s + [y]
    ensures z in s ==> FirstIndex(s + [y], z) == FirstIndex(s, z)
    ensures z !in s ==> FirstIndex(s + [y], z) == |s|
  {
    if z in s {
      var k := FirstIndex(s, z);
      assert (s + [y])[..k] == s[..k];
      FirstIndexUnique(s + [y], z, k);
    } else {
      assert (s + [y])[..|s|] == s;
      FirstIndexUnique(s + [y], z, |s|);
    }
  }

  /** `[...new Set(s)]` lists the values of `s` in the order of their first occurrences. */
  lemma {:induction false} DistinctInFirstAppearanceOrder<T>(s: seq<T>)
    ensures forall i, j :: 0 <= i < j < |Distinct(s)| ==>
      FirstIndex(s, Distinct(s)[i]) < FirstIndex(s, Distinct(s)[j])
    decreases |s|
  {
    if s != [] {
      var init, y := s[..|s| - 1], s[|s| - 1];
      assert s == init + [y];
      DistinctInFirstAppearanceOrder(init);
      DistinctSnoc(init, y);
      var d, r := Distinct(init), Distinct(s);
      forall i, j | 0 <= i < j < |r|
        ensures FirstIndex(s, r[i]) < FirstIndex(s, r[j])
      {
        assert r[i] in d;
        FirstIndexSnoc(init, y, r[i]);
        FirstIndexSnoc(init, y, r[j]);
        if j < |d| {
          assert r[j] in d;
        }
      }
    }
  }

  /** The first value of `[...new Set(s)]` is the first value of `s`. */
  lemma DistinctHead<T>(s: seq<T>)
    requires |s| > 0
    ensures |Distinct(s)| > 0 && Distinct(s)[0] == s[0]
  {
    var r := Distinct(s);
    assert s[0] in r;
    var j :| 0 <= j < |r| && r[j] == s[0];
    DistinctInFirstAppearanceOrder(s);
    FirstIndexUnique(s, s[0], 0);
  }

  // ---------------------------------------------------------------------
  // conservation of counts

  /** The sum of `Count(s, k)` over the keys `k` of `keys`. */
  function SumOfCounts<T(==)>(keys: seq<T>, s: seq<T>): nat
    decreases |keys|
  {
    if keys == [] then 0
    else SumOfCounts(keys[..|keys| - 1], s) + Count(s, keys[|keys| - 1])
  }

  /** One more value in `s` adds one to the sum exactly when it is among the (distinct) keys. */
  lemma {:induction false} SumOfCountsSnoc<T>(keys: seq<T>, s: seq<T>, y: T)
    requires NoDuplicates(keys)
    ensures SumOfCounts(keys, s + [y]) == SumOfCounts(keys, s) + if y in keys then 1 else 0
    decreases |keys|
  {
    if keys != [] {
      var init, last := keys[..|keys| - 1], keys[|keys| - 1];
      assert keys == init + [last];
      SumOfCountsSnoc(init, s, y);
      CountSnoc(s, y, last);
      if y in init {
        var i :| 0 <= i < |init| && init[i] == y;
        assert keys[i] == y;
      }
    }
  }

  /** Counting every distinct value of `s` accounts for every element of `s` exactly once. */
  lemma {:induction false} DistinctCountsSum<T>(s: seq<T>)
    ensures SumOfCounts(Distinct(s), s) == |s|
    decreases |s|
  {
    if s != [] {
      var init, y := s[..|s| - 1], s[|s| - 1];
      assert s == init + [y];
      DistinctCountsSum(init);
      DistinctSnoc(init, y);
      var d := Distinct(init);
      SumOfCountsSnoc(d, init, y);
      if y !in init {
        CountSnoc(init, y, y);
        assert (d + [y])[..|d + [y]| - 1] == d;
      }
    }
  }

  // ---------------------------------------------------------------------
  // shift and maxBy

  /** The array left behind by `s.shift()`: `s` without its first element, `[]` when empty. */
  function DropFirst<T>(s: seq<T>): (r: seq<T>)
    ensures |r| == if |s| == 0 then 0 else |s| - 1
    ensures forall i :: 0 <= i < |r| ==> r[i] == s[i + 1]
  {
    if s == [] then [] else s[1..]
  }

  /** The index of lodash's `maxBy(s, key)`: the first element with the largest key. */
  function MaxByIndex<T>(s: seq<T>, key: T -> int): (k: nat)
    requires |s| > 0
    ensures k < |s|
    ensures forall j :: 0 <= j < |s| ==> key(s[j]) <= key(s[k])
    ensures forall j :: 0 <= j < k ==> key(s[j]) < key(s[k])
    decreases |s|
  {
    if |s| == 1 then 0
    else
      var k := MaxByIndex(s[..|s| - 1], key);
      if key(s[|s| - 1]) > key(s[k]) then |s| - 1 else k
  }
}

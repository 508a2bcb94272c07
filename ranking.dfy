/**
  Ordering by a count, largest first, keeping the incoming order among equal
  counts: what `Counter.most_common()` does (Python's `sorted` is stable) and
  the order in which the model lists `order_by('-cantidad')` results.
 */
module Ranking {

  /** Keys never increase along `s`. */
  ghost predicate NonIncreasing<T>(s: seq<T>, key: T -> int) {
    forall i, j :: 0 <= i < j < |s| ==> key(s[i]) >= key(s[j])
  }

  /** Among elements with equal keys, `rank` increases along `s`. */
  ghost predicate TiesOrdered<T>(s: seq<T>, key: T -> int, rank: T -> int) {
    forall i, j :: 0 <= i < j < |s| && key(s[i]) == key(s[j]) ==> rank(s[i]) < rank(s[j])
  }

  /** Number of leading elements of `s` whose key is at least that of `x`. */
  function InsertPosition<T>(x: T, s: seq<T>, key: T -> int): (p: nat)
    ensures p <= |s|
  {
    if s == [] || key(s[0]) < key(x) then 0 else 1 + InsertPosition(x, s[1..], key)
  }

  /** The insert position is past every element whose key is at least that of `x`, and at the first one whose key is smaller. */
  lemma {:induction false} InsertPositionSpec<T>(x: T, s: seq<T>, key: T -> int)
    ensures var p := InsertPosition(x, s, key);
      && (forall i :: 0 <= i < p ==> key(s[i]) >= key(x))
      && (p < |s| ==> key(s[p]) < key(x))
  {
    if s != [] && key(s[0]) >= key(x) {
      InsertPositionSpec(x, s[1..], key);
      var p := InsertPosition(x, s, key);
      forall i | 0 <= i < p ensures key(s[i]) >= key(x) {
        if i > 0 {
          assert s[i] == s[1..][i - 1];
        }
      }
    }
  }

  /** Puts `x` after every leading element whose key is at least its own. */
  function Insert<T>(x: T, s: seq<T>, key: T -> int): (r: seq<T>)
    ensures |r| == |s| + 1
  {
    if s == [] then [x]
    else if key(s[0]) >= key(x) then [s[0]] + Insert(x, s[1..], key)
    else [x] + s
  }

  /** `x` lands at its insert position; the elements of `s` keep their order around it. */
  lemma {:induction false} InsertShape<T>(x: T, s: seq<T>, key: T -> int)
    ensures Insert(x, s, key) == s[..InsertPosition(x, s, key)] + [x] + s[InsertPosition(x, s, key)..]
  {
    if s != [] && key(s[0]) >= key(x) {
      var t := s[1..];
      var q := InsertPosition(x, t, key);
      InsertShape(x, t, key);
      assert s[..q + 1] == [s[0]] + t[..q];
      assert s[q + 1..] == t[q..];
    }
  }

  /**
    Element `i` of the result: from `s` before the insert position, `x` at it,
    from `s` shifted by one after it, where keys of a sorted `s` are below that of `x`.
   */
  lemma InsertIndex<T>(x: T, s: seq<T>, key: T -> int, i: nat)
    requires i <= |s|
    ensures var p := InsertPosition(x, s, key);
      && (i < p ==> Insert(x, s, key)[i] == s[i] && key(s[i]) >= key(x))
      && (i == p ==> Insert(x, s, key)[i] == x)
      && (i > p ==> Insert(x, s, key)[i] == s[i - 1] && (NonIncreasing(s, key) ==> key(s[i - 1]) < key(x)))
  {
    InsertShape(x, s, key);
    InsertPositionSpec(x, s, key);
  }

  lemma InsertPermutes<T>(x: T, s: seq<T>, key: T -> int)
    ensures multiset(Insert(x, s, key)) == multiset(s) + multiset{x}
  {
    var p := InsertPosition(x, s, key);
    var a, b := s[..p], s[p..];
    InsertShape(x, s, key);
    assert s == a + b;
    assert multiset(a + [x] + b) == multiset(a) + multiset{x} + multiset(b);
  }

  /** Stable sort by key, largest key first (insertion sort). */
  function SortDesc<T>(s: seq<T>, key: T -> int): (r: seq<T>)
    ensures |r| == |s|
  {
    if s == [] then [] else Insert(s[|s| - 1], SortDesc(s[..|s| - 1], key), key)
  }

  /** The sort only reorders: the result holds the same elements as the input. */
  lemma {:induction false} SortDescPermutes<T>(s: seq<T>, key: T -> int)
    ensures multiset(SortDesc(s, key)) == multiset(s)
  {
    if s != [] {
      var init := s[..|s| - 1];
      SortDescPermutes(init, key);
      InsertPermutes(s[|s| - 1], SortDesc(init, key), key);
      assert s == init + [s[|s| - 1]];
    }
  }

  lemma InsertKeepsOrder<T>(x: T, s: seq<T>, key: T -> int)
    requires NonIncreasing(s, key)
    ensures NonIncreasing(Insert(x, s, key), key)
  {
    var p := InsertPosition(x, s, key);
    var r := Insert(x, s, key);
    forall i, j | 0 <= i < j < |r| ensures key(r[i]) >= key(r[j]) {
      InsertIndex(x, s, key, i);
      InsertIndex(x, s, key, j);
    }
  }

  /** The result of the sort is ordered by non-increasing key. */
  lemma {:induction false} SortDescOrdered<T>(s: seq<T>, key: T -> int)
    ensures NonIncreasing(SortDesc(s, key), key)
  {
    if s != [] {
      SortDescOrdered(s[..|s| - 1], key);
      InsertKeepsOrder(s[|s| - 1], SortDesc(s[..|s| - 1], key), key);
    }
  }

  lemma InsertStable<T>(x: T, s: seq<T>, key: T -> int, rank: T -> int)
    requires NonIncreasing(s, key) && TiesOrdered(s, key, rank)
    requires forall i :: 0 <= i < |s| ==> rank(s[i]) < rank(x)
    ensures TiesOrdered(Insert(x, s, key), key, rank)
  {
    var p := InsertPosition(x, s, key);
    var r := Insert(x, s, key);
    forall i, j | 0 <= i < j < |r| && key(r[i]) == key(r[j]) ensures rank(r[i]) < rank(r[j]) {
      InsertIndex(x, s, key, i);
      InsertIndex(x, s, key, j);
    }
  }

  /**
    Stability: when `rank` increases along the input, it increases along the
    output among elements with equal keys.
   */
  lemma {:induction false} SortDescStable<T>(s: seq<T>, key: T -> int, rank: T -> int)
    requires forall i, j :: 0 <= i < j < |s| ==> rank(s[i]) < rank(s[j])
    ensures TiesOrdered(SortDesc(s, key), key, rank)
  {
    if s != [] {
      var init, x := s[..|s| - 1], s[|s| - 1];
      var r := SortDesc(init, key);
      SortDescStable(init, key, rank);
      SortDescOrdered(init, key);
      SortDescPermutes(init, key);
      forall i | 0 <= i < |r| ensures rank(r[i]) < rank(x) {
        assert r[i] in multiset(init);
      }
      InsertStable(x, r, key, rank);
    }
  }

  /** Sum of `f` over the elements of `s`. */
  function SumOf<T>(s: seq<T>, f: T -> int): int
  {
    if s == [] then 0 else f(s[0]) + SumOf(s[1..], f)
  }

  lemma {:induction false} SumOfAppend<T>(a: seq<T>, b: seq<T>, f: T -> int)
    ensures SumOf(a + b, f) == SumOf(a, f) + SumOf(b, f)
  {
    if a != [] {
      assert (a + b)[0] == a[0];
      assert (a + b)[1..] == a[1..] + b;
      SumOfAppend(a[1..], b, f);
    } else {
      assert a + b == b;
    }
  }

  /** Replacing one element changes the sum by the difference of the two. */
  lemma SumOfUpdate<T>(s: seq<T>, k: nat, e: T, f: T -> int)
    requires k < |s|
    ensures SumOf(s[k := e], f) == SumOf(s, f) - f(s[k]) + f(e)
  {
    SumOfAppend(s[..k], [s[k]] + s[k + 1..], f);
    SumOfAppend(s[..k], [e] + s[k + 1..], f);
    SumOfAppend([s[k]], s[k + 1..], f);
    SumOfAppend([e], s[k + 1..], f);
    assert s == s[..k] + ([s[k]] + s[k + 1..]);
    assert s[k := e] == s[..k] + ([e] + s[k + 1..]);
  }

  lemma {:induction false} SumOfInsert<T>(x: T, s: seq<T>, key: T -> int, f: T -> int)
    ensures SumOf(Insert(x, s, key), f) == f(x) + SumOf(s, f)
  {
    if s != [] && key(s[0]) >= key(x) {
      var r := Insert(x, s, key);
      assert r == [s[0]] + Insert(x, s[1..], key);
      assert r[1..] == Insert(x, s[1..], key);
      SumOfInsert(x, s[1..], key, f);
    }
  }

  /** Sorting does not change the sum of any quantity over the elements. */
  lemma {:induction false} SortDescKeepsSum<T>(s: seq<T>, key: T -> int, f: T -> int)
    ensures SumOf(SortDesc(s, key), f) == SumOf(s, f)
  {
    if s != [] {
      var init, x := s[..|s| - 1], s[|s| - 1];
      var r := SortDesc(init, key);
      assert SortDesc(s, key) == Insert(x, r, key);
      SortDescKeepsSum(init, key, f);
      SumOfInsert(x, r, key, f);
      assert SumOf(SortDesc(s, key), f) == f(x) + SumOf(init, f);
      SumOfAppend(init, [x], f);
      assert init + [x] == s;
      assert SumOf([x], f) == f(x);
    }
  }
}

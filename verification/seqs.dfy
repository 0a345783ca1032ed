/** The list operations of the Kotlin standard library that the modelled code
    relies on: `indexOfFirst`, `findLast`, `filter`, and the stable
    `sortedByDescending`. */
module Seqs {
  import opened Wrappers

  // ---------------------------------------------------------------------------
  // Searching
  // ---------------------------------------------------------------------------

  /** `indexOfFirst`: the least index whose element satisfies `p`. */
  function FirstIndex<T>(xs: seq<T>, p: T -> bool): (r: Option<nat>)
    ensures r.Some? ==> r.value < |xs| && p(xs[r.value])
    ensures r.Some? ==> forall j :: 0 <= j < r.value ==> !p(xs[j])
    ensures r.None? ==> forall j :: 0 <= j < |xs| ==> !p(xs[j])
    decreases |xs|
  {
    if |xs| == 0 then None
    else if p(xs[0]) then Some(0)
    else match FirstIndex(xs[1..], p)
      case None => None
      case Some(i) => Some(i + 1)
  }

  /** The greatest index whose element satisfies `p` (`findLast` returns
      the element there). */
  function LastIndex<T>(xs: seq<T>, p: T -> bool): (r: Option<nat>)
    ensures r.Some? ==> r.value < |xs| && p(xs[r.value]) && LastWith(xs, p, r.value)
    ensures r.None? ==> forall j :: 0 <= j < |xs| ==> !p(xs[j])
    decreases |xs|
  {
    if |xs| == 0 then None
    else if p(xs[|xs| - 1]) then Some(|xs| - 1)
    else LastIndex(xs[..|xs| - 1], p)
  }

  /** No element after index `i` satisfies `p`. */
  predicate LastWith<T>(xs: seq<T>, p: T -> bool, i: nat) {
    forall j :: i < j < |xs| ==> !p(xs[j])
  }

  // ---------------------------------------------------------------------------
  // Filtering
  // ---------------------------------------------------------------------------

  /** `filter`: the elements satisfying `p`, in their original order. */
  function Filter<T(!new)>(xs: seq<T>, p: T -> bool): (r: seq<T>)
    ensures |r| <= |xs|
    ensures forall k :: 0 <= k < |r| ==> p(r[k])
    decreases |xs|
  {
    if |xs| == 0 then []
    else (if p(xs[0]) then [xs[0]] else []) + Filter(xs[1..], p)
  }

  /** The elements NOT satisfying `p`, in their original order
      (`removeAll` of the ones that do). */
  function Reject<T(!new)>(xs: seq<T>, p: T -> bool): (r: seq<T>)
    ensures |r| <= |xs|
    ensures forall k :: 0 <= k < |r| ==> !p(r[k])
    decreases |xs|
  {
    if |xs| == 0 then []
    else (if p(xs[0]) then [] else [xs[0]]) + Reject(xs[1..], p)
  }

  /** The kept elements are exactly the elements satisfying `p`. */
  lemma {:induction false} FilterMembers<T(!new)>(xs: seq<T>, p: T -> bool)
    ensures forall x :: x in Filter(xs, p) <==> x in xs && p(x)
    decreases |xs|
  {
    if |xs| > 0 {
      FilterMembers(xs[1..], p);
      assert xs == [xs[0]] + xs[1..];
    }
  }

  /** The remaining elements are exactly the elements not satisfying `p`. */
  lemma {:induction false} RejectMembers<T(!new)>(xs: seq<T>, p: T -> bool)
    ensures forall x :: x in Reject(xs, p) <==> x in xs && !p(x)
    decreases |xs|
  {
    if |xs| > 0 {
      RejectMembers(xs[1..], p);
      assert xs == [xs[0]] + xs[1..];
    }
  }

  /** Filtering keeps relative order: it distributes over concatenation. */
  lemma {:induction false} FilterConcat<T(!new)>(a: seq<T>, b: seq<T>, p: T -> bool)
    ensures Filter(a + b, p) == Filter(a, p) + Filter(b, p)
    decreases |a|
  {
    if |a| > 0 {
      assert (a + b)[0] == a[0];
      assert (a + b)[1..] == a[1..] + b;
      FilterConcat(a[1..], b, p);
      var h := if p(a[0]) then [a[0]] else [];
      assert Filter(a + b, p) == h + (Filter(a[1..], p) + Filter(b, p));
    } else {
      assert a + b == b;
    }
  }

  /** Rejecting keeps relative order: it distributes over concatenation. */
  lemma {:induction false} RejectConcat<T(!new)>(a: seq<T>, b: seq<T>, p: T -> bool)
    ensures Reject(a + b, p) == Reject(a, p) + Reject(b, p)
    decreases |a|
  {
    if |a| > 0 {
      assert (a + b)[0] == a[0];
      assert (a + b)[1..] == a[1..] + b;
      RejectConcat(a[1..], b, p);
      var h := if p(a[0]) then [] else [a[0]];
      assert Reject(a + b, p) == h + (Reject(a[1..], p) + Reject(b, p));
    } else {
      assert a + b == b;
    }
  }

  /** Every element is either kept or rejected, so the sizes add up. */
  lemma {:induction false} FilterRejectPartition<T(!new)>(xs: seq<T>, p: T -> bool)
    ensures |Filter(xs, p)| + |Reject(xs, p)| == |xs|
    decreases |xs|
  {
    if |xs| > 0 {
      FilterRejectPartition(xs[1..], p);
    }
  }

  /** Together the kept and the rejected elements are the input, counted
      with multiplicity. */
  lemma {:induction false} FilterRejectMultiset<T(!new)>(xs: seq<T>, p: T -> bool)
    ensures multiset(Filter(xs, p)) + multiset(Reject(xs, p)) == multiset(xs)
    decreases |xs|
  {
    if |xs| > 0 {
      var x, t := xs[0], xs[1..];
      FilterRejectMultiset(t, p);
      assert xs == [x] + t;
      ConsMultiset(x, Filter(t, p), Reject(t, p), t);
      if p(x) {
        assert Filter(xs, p) == [x] + Filter(t, p);
        assert Reject(xs, p) == Reject(t, p);
      } else {
        assert Filter(xs, p) == Filter(t, p);
        assert Reject(xs, p) == [x] + Reject(t, p);
      }
    }
  }

  /** Adding an element to either side of a split adds it to the whole. */
  lemma ConsMultiset<T>(x: T, f: seq<T>, r: seq<T>, t: seq<T>)
    requires multiset(f) + multiset(r) == multiset(t)
    ensures multiset([x] + f) + multiset(r) == multiset([x] + t)
    ensures multiset(f) + multiset([x] + r) == multiset([x] + t)
  {
  }

  // ---------------------------------------------------------------------------
  // Stable descending sort
  // ---------------------------------------------------------------------------

  predicate SortedDesc<T>(xs: seq<T>, key: T -> int) {
    forall i, j :: 0 <= i < j < |xs| ==> key(xs[i]) >= key(xs[j])
  }

  /** The predicate "has key `v`". */
  function HasKey<T>(key: T -> int, v: int): T -> bool {
    x => key(x) == v
  }

  /** Puts `x` in front of the first element whose key is not larger, so `x`
      stays ahead of elements with an equal key. */
  function InsertDesc<T>(x: T, ys: seq<T>, key: T -> int): (r: seq<T>)
    requires SortedDesc(ys, key)
    ensures SortedDesc(r, key)
    ensures multiset(r) == multiset{x} + multiset(ys)
    ensures |r| == |ys| + 1
    ensures r[0] == x || (|ys| > 0 && r[0] == ys[0])
    decreases |ys|
  {
    if |ys| == 0 || key(x) >= key(ys[0]) then
      ConsSorted(x, ys, key);
      [x] + ys
    else
      var tail := InsertDesc(x, ys[1..], key);
      assert ys == [ys[0]] + ys[1..];
      ConsSorted(ys[0], tail, key);
      [ys[0]] + tail
  }

  /** Putting an element with a key at least the head's in front keeps a
      sequence sorted. */
  lemma ConsSorted<T>(x: T, ys: seq<T>, key: T -> int)
    requires SortedDesc(ys, key)
    requires |ys| > 0 ==> key(x) >= key(ys[0])
    ensures SortedDesc([x] + ys, key)
  {
    var r := [x] + ys;
    forall i, j | 0 <= i < j < |r|
      ensures key(r[i]) >= key(r[j])
    {
      if i == 0 {
        assert key(ys[0]) >= key(ys[j - 1]);
      } else {
        assert r[i] == ys[i - 1] && r[j] == ys[j - 1];
      }
    }
  }

  /** Kotlin's `sortedByDescending(key)`: a stable sort, newest first. */
  function SortDesc<T>(xs: seq<T>, key: T -> int): (r: seq<T>)
    ensures SortedDesc(r, key)
    ensures multiset(r) == multiset(xs)
    ensures |r| == |xs|
    decreases |xs|
  {
    if |xs| == 0 then []
    else
      assert xs == [xs[0]] + xs[1..];
      InsertDesc(xs[0], SortDesc(xs[1..], key), key)
  }

  /** Insertion only moves `x` past elements with a strictly larger key, so
      elements sharing a key keep their relative order. */
  lemma {:induction false} InsertDescStable<T(!new)>(x: T, ys: seq<T>, key: T -> int, v: int)
    requires SortedDesc(ys, key)
    ensures Filter(InsertDesc(x, ys, key), HasKey(key, v)) == Filter([x] + ys, HasKey(key, v))
    decreases |ys|
  {
    var q := HasKey(key, v);
    if |ys| > 0 && key(x) < key(ys[0]) {
      var y, t := ys[0], ys[1..];
      SortedTail(ys, key);
      var tail := InsertDesc(x, t, key);
      assert InsertDesc(x, ys, key) == [y] + tail;
      assert ys == [y] + t;
      FilterSwap(x, y, Filter(t, q), q);
      calc {
        Filter(InsertDesc(x, ys, key), q);
        Filter([y] + tail, q);
        { FilterConcat([y], tail, q); }
        Filter([y], q) + Filter(tail, q);
        { InsertDescStable(x, t, key, v); }
        Filter([y], q) + Filter([x] + t, q);
        { FilterConcat([x], t, q); }
        Filter([y], q) + (Filter([x], q) + Filter(t, q));
        Filter([x], q) + (Filter([y], q) + Filter(t, q));
        { FilterConcat([y], t, q); }
        Filter([x], q) + Filter(ys, q);
        { FilterConcat([x], ys, q); }
        Filter([x] + ys, q);
      }
    }
  }

  /** Two elements of which at most one is kept can trade places. */
  lemma FilterSwap<T(!new)>(x: T, y: T, rest: seq<T>, p: T -> bool)
    requires !(p(x) && p(y))
    ensures Filter([y], p) + (Filter([x], p) + rest) == Filter([x], p) + (Filter([y], p) + rest)
  {
    assert Filter([x], p) == if p(x) then [x] else [];
    assert Filter([y], p) == if p(y) then [y] else [];
  }

  /** The tail of a sorted sequence is sorted. */
  lemma SortedTail<T>(ys: seq<T>, key: T -> int)
    requires |ys| > 0 && SortedDesc(ys, key)
    ensures SortedDesc(ys[1..], key)
  {
    var t := ys[1..];
    forall i, j | 0 <= i < j < |t|
      ensures key(t[i]) >= key(t[j])
    {
      assert t[i] == ys[i + 1] && t[j] == ys[j + 1];
    }
  }

  /** The sort is stable: for every key value, the elements with that key
      appear in the output in the same order as in the input. */
  lemma {:induction false} SortDescStable<T(!new)>(xs: seq<T>, key: T -> int, v: int)
    ensures Filter(SortDesc(xs, key), HasKey(key, v)) == Filter(xs, HasKey(key, v))
    decreases |xs|
  {
    if |xs| > 0 {
      var q := HasKey(key, v);
      var rest := SortDesc(xs[1..], key);
      calc {
        Filter(SortDesc(xs, key), q);
        Filter(InsertDesc(xs[0], rest, key), q);
        { InsertDescStable(xs[0], rest, key, v); }
        Filter([xs[0]] + rest, q);
        { FilterConcat([xs[0]], rest, q); }
        Filter([xs[0]], q) + Filter(rest, q);
        { SortDescStable(xs[1..], key, v); }
        Filter([xs[0]], q) + Filter(xs[1..], q);
        { FilterConcat([xs[0]], xs[1..], q); }
        Filter([xs[0]] + xs[1..], q);
        { assert xs == [xs[0]] + xs[1..]; }
        Filter(xs, q);
      }
    }
  }

  /** Sequences that are permutations of each other have the same
      elements. */
  lemma SameMembers<T>(a: seq<T>, b: seq<T>)
    requires multiset(a) == multiset(b)
    ensures forall e :: e in a <==> e in b
  {
    forall e
      ensures e in a <==> e in b
    {
      assert e in a <==> e in multiset(a);
      assert e in b <==> e in multiset(b);
    }
  }

  /** The head of a sequence sorted by descending key has the largest key. */
  lemma SortedHeadIsMax<T>(xs: seq<T>, key: T -> int)
    requires |xs| > 0 && SortedDesc(xs, key)
    ensures forall e :: e in xs ==> key(e) <= key(xs[0])
  {
    forall e | e in xs
      ensures key(e) <= key(xs[0])
    {
      var k :| 0 <= k < |xs| && xs[k] == e;
      if k > 0 {
        assert key(xs[0]) >= key(xs[k]);
      }
    }
  }

  /** A prefix holds no element more often than the whole sequence. */
  lemma PrefixMultiset<T>(xs: seq<T>, n: nat)
    requires n <= |xs|
    ensures multiset(xs[..n]) <= multiset(xs)
  {
    assert xs == xs[..n] + xs[n..];
  }

  /** The first `n` elements, all of them when there are fewer (`take(n)`
      for `n >= 0`). */
  function Take<T>(xs: seq<T>, n: nat): (r: seq<T>)
    ensures |r| == if n < |xs| then n else |xs|
    ensures forall k :: 0 <= k < |r| ==> r[k] == xs[k]
  {
    if n < |xs| then xs[..n] else xs
  }
}

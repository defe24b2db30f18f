/**
 * Stable sorting by an integer-tuple key, the behaviour of Python's `sorted(xs, key=...)`.
 * A descending sort (`reverse=True`, which Python also keeps stable) is the ascending
 * sort by the negated key.
 */
module StableSort {

  /** Python's ordering of integer tuples: lexicographic, a proper prefix first. */
  predicate KeyLe(a: seq<int>, b: seq<int>)
    decreases |a|
  {
    |a| == 0 || (|b| > 0 && (a[0] < b[0] || (a[0] == b[0] && KeyLe(a[1..], b[1..]))))
  }

  lemma KeyLeRefl(a: seq<int>)
    ensures KeyLe(a, a)
  {
  }

  lemma {:induction false} KeyLeTotal(a: seq<int>, b: seq<int>)
    ensures KeyLe(a, b) || KeyLe(b, a)
    decreases |a|
  {
    if |a| > 0 && |b| > 0 && a[0] == b[0] {
      KeyLeTotal(a[1..], b[1..]);
    }
  }

  lemma {:induction false} KeyLeAntisymmetric(a: seq<int>, b: seq<int>)
    requires KeyLe(a, b) && KeyLe(b, a)
    ensures a == b
    decreases |a|
  {
    if |a| > 0 {
      KeyLeAntisymmetric(a[1..], b[1..]);
      assert a == [a[0]] + a[1..] && b == [b[0]] + b[1..];
    }
  }

  lemma {:induction false} KeyLeTransitive(a: seq<int>, b: seq<int>, c: seq<int>)
    requires KeyLe(a, b) && KeyLe(b, c)
    ensures KeyLe(a, c)
    decreases |a|
  {
    if |a| > 0 && a[0] == b[0] && b[0] == c[0] {
      KeyLeTransitive(a[1..], b[1..], c[1..]);
    }
  }

  /** Ascending by key, every pair and not just neighbours. */
  predicate Sorted<T>(xs: seq<T>, key: T -> seq<int>) {
    forall i, j :: 0 <= i < j < |xs| ==> KeyLe(key(xs[i]), key(xs[j]))
  }

  /** The elements whose key is `k`, in their order in `xs`. */
  function WithKey<T>(xs: seq<T>, key: T -> seq<int>, k: seq<int>): (r: seq<T>)
    ensures |r| <= |xs|
    ensures forall i :: 0 <= i < |r| ==> r[i] in xs && key(r[i]) == k
    ensures forall i :: 0 <= i < |xs| && key(xs[i]) == k ==> xs[i] in r
  {
    if xs == [] then []
    else
      assert forall i :: 0 <= i < |xs| - 1 ==> xs[i] == xs[..|xs| - 1][i];
      var init := WithKey(xs[..|xs| - 1], key, k);
      if key(xs[|xs| - 1]) == k then init + [xs[|xs| - 1]] else init
  }

  lemma WithKeyAppend<T>(xs: seq<T>, ys: seq<T>, key: T -> seq<int>, k: seq<int>)
    ensures WithKey(xs + ys, key, k) == WithKey(xs, key, k) + WithKey(ys, key, k)
    decreases |ys|
  {
    if ys != [] {
      assert (xs + ys)[..|xs + ys| - 1] == xs + ys[..|ys| - 1];
      WithKeyAppend(xs, ys[..|ys| - 1], key, k);
    } else {
      assert xs + ys == xs;
    }
  }

  /**
   * `x` placed after every element of `xs` whose key is at most its own, counting from the
   * end: the step that keeps equal keys in arrival order.
   */
  function Insert<T>(x: T, xs: seq<T>, key: T -> seq<int>): (r: seq<T>)
    ensures |r| == |xs| + 1
    decreases |xs|
  {
    if xs == [] || KeyLe(key(xs[|xs| - 1]), key(x)) then xs + [x]
    else Insert(x, xs[..|xs| - 1], key) + [xs[|xs| - 1]]
  }

  /** Insertion sort, taking the elements in input order. */
  function Sort<T>(xs: seq<T>, key: T -> seq<int>): (r: seq<T>)
    ensures |r| == |xs|
  {
    if xs == [] then [] else Insert(xs[|xs| - 1], Sort(xs[..|xs| - 1], key), key)
  }

  lemma {:induction false} InsertPermutes<T>(x: T, xs: seq<T>, key: T -> seq<int>)
    ensures multiset(Insert(x, xs, key)) == multiset(xs) + multiset{x}
    decreases |xs|
  {
    if xs == [] || KeyLe(key(xs[|xs| - 1]), key(x)) {
    } else {
      var init, last := xs[..|xs| - 1], xs[|xs| - 1];
      InsertPermutes(x, init, key);
      assert xs == init + [last];
    }
  }

  lemma {:induction false} InsertWithKey<T>(x: T, xs: seq<T>, key: T -> seq<int>, k: seq<int>)
    ensures WithKey(Insert(x, xs, key), key, k)
         == if key(x) == k then WithKey(xs, key, k) + [x] else WithKey(xs, key, k)
    decreases |xs|
  {
    if xs == [] || KeyLe(key(xs[|xs| - 1]), key(x)) {
      WithKeyAppend(xs, [x], key, k);
    } else {
      var init, last := xs[..|xs| - 1], xs[|xs| - 1];
      var r := Insert(x, xs, key);
      assert r[..|r| - 1] == Insert(x, init, key);
      InsertWithKey(x, init, key, k);
      if key(last) == key(x) {
        KeyLeRefl(key(x));
      }
    }
  }

  lemma {:induction false} InsertSorted<T>(x: T, xs: seq<T>, key: T -> seq<int>)
    requires Sorted(xs, key)
    ensures Sorted(Insert(x, xs, key), key)
    decreases |xs|
  {
    var r := Insert(x, xs, key);
    if xs == [] {
    } else if KeyLe(key(xs[|xs| - 1]), key(x)) {
      forall i, j | 0 <= i < j < |r|
        ensures KeyLe(key(r[i]), key(r[j]))
      {
        if j == |xs| && i < |xs| - 1 {
          KeyLeTransitive(key(xs[i]), key(xs[|xs| - 1]), key(x));
        }
      }
    } else {
      var init, last := xs[..|xs| - 1], xs[|xs| - 1];
      var front := Insert(x, init, key);
      assert Sorted(init, key);
      InsertSorted(x, init, key);
      KeyLeTotal(key(last), key(x));
      InsertPermutes(x, init, key);
      assert r == front + [last];
      forall i | 0 <= i < |front|
        ensures KeyLe(key(front[i]), key(last))
      {
        assert front[i] in multiset(front);
        if front[i] != x {
          assert front[i] in multiset(init);
          var m :| 0 <= m < |init| && init[m] == front[i];
          assert xs[m] == front[i];
        }
      }
    }
  }

  /** The sorted sequence: ascending by key. */
  lemma {:induction false} SortSorted<T>(xs: seq<T>, key: T -> seq<int>)
    ensures Sorted(Sort(xs, key), key)
  {
    if xs != [] {
      SortSorted(xs[..|xs| - 1], key);
      InsertSorted(xs[|xs| - 1], Sort(xs[..|xs| - 1], key), key);
    }
  }

  /** The sorted sequence holds exactly the input's elements, each as often. */
  lemma {:induction false} SortPermutes<T>(xs: seq<T>, key: T -> seq<int>)
    ensures multiset(Sort(xs, key)) == multiset(xs)
  {
    if xs != [] {
      SortPermutes(xs[..|xs| - 1], key);
      InsertPermutes(xs[|xs| - 1], Sort(xs[..|xs| - 1], key), key);
      assert xs == xs[..|xs| - 1] + [xs[|xs| - 1]];
    }
  }

  /** Stability: the elements sharing any one key keep their input order. */
  lemma {:induction false} SortStable<T>(xs: seq<T>, key: T -> seq<int>, k: seq<int>)
    ensures WithKey(Sort(xs, key), key, k) == WithKey(xs, key, k)
  {
    if xs != [] {
      SortStable(xs[..|xs| - 1], key, k);
      InsertWithKey(xs[|xs| - 1], Sort(xs[..|xs| - 1], key), key, k);
    }
  }
}

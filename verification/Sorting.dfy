/** Lexicographic order of byte strings (bytes.Compare, strings.Compare) and sorting by it
    (sort.Slice). */
module Sorting {
  import opened Base

  /** Byte strings; any other lists of integers compare in the same way. */
  type Bytes = seq<int>

  predicate LexLess(a: Bytes, b: Bytes) {
    if a == [] then b != []
    else if b == [] then false
    else a[0] < b[0] || (a[0] == b[0] && LexLess(a[1..], b[1..]))
  }

  /** The lists agree up to `k`, where the first ends or has the smaller element. */
  ghost predicate FirstDifference(a: Bytes, b: Bytes, k: nat) {
    k <= |a| && k < |b| && a[..k] == b[..k] && (k == |a| || a[k] < b[k])
  }

  /** The order is that of the first difference, a prefix coming first. */
  lemma {:induction false} LexMeaning(a: Bytes, b: Bytes)
    ensures LexLess(a, b) <==> exists k :: FirstDifference(a, b, k)
  {
    if a == [] {
      if b != [] {
        assert FirstDifference(a, b, 0);
      }
    } else if b != [] {
      LexMeaning(a[1..], b[1..]);
      if a[0] < b[0] {
        assert FirstDifference(a, b, 0);
      } else if a[0] == b[0] {
        forall k: nat | FirstDifference(a[1..], b[1..], k) ensures FirstDifference(a, b, k + 1) {
          assert a[..k + 1] == [a[0]] + a[1..][..k] && b[..k + 1] == [b[0]] + b[1..][..k];
        }
        forall k: nat | k > 0 && FirstDifference(a, b, k) ensures FirstDifference(a[1..], b[1..], k - 1) {
          assert a[1..][..k - 1] == a[..k][1..] && b[1..][..k - 1] == b[..k][1..];
        }
      } else {
        forall k: nat ensures !FirstDifference(a, b, k) {
          if k > 0 && k <= |a| && k < |b| {
            assert a[..k][0] == a[0] && b[..k][0] == b[0];
          }
        }
      }
    }
  }

  lemma {:induction false} LexIrreflexive(a: Bytes)
    ensures !LexLess(a, a)
  {
    if a != [] {
      LexIrreflexive(a[1..]);
    }
  }

  lemma {:induction false} LexTransitive(a: Bytes, b: Bytes, c: Bytes)
    requires LexLess(a, b) && LexLess(b, c)
    ensures LexLess(a, c)
  {
    if a != [] && b != [] && c != [] && a[0] == b[0] == c[0] {
      LexTransitive(a[1..], b[1..], c[1..]);
    }
  }

  lemma {:induction false} LexTotal(a: Bytes, b: Bytes)
    ensures LexLess(a, b) || a == b || LexLess(b, a)
  {
    if a != [] && b != [] && a[0] == b[0] {
      LexTotal(a[1..], b[1..]);
      assert a == [a[0]] + a[1..] && b == [b[0]] + b[1..];
    }
  }

  /** No element is less than an earlier one. */
  ghost predicate Sorted<T>(xs: seq<T>, key: T -> Bytes) {
    forall i, j :: 0 <= i < j < |xs| ==> !LexLess(key(xs[j]), key(xs[i]))
  }

  function Insert<T>(xs: seq<T>, x: T, key: T -> Bytes): (r: seq<T>) {
    if xs == [] || !LexLess(key(x), key(xs[|xs| - 1])) then xs + [x]
    else Insert(xs[..|xs| - 1], x, key) + [xs[|xs| - 1]]
  }

  function Sort<T>(xs: seq<T>, key: T -> Bytes): (r: seq<T>) {
    if xs == [] then [] else Insert(Sort(xs[..|xs| - 1], key), xs[|xs| - 1], key)
  }

  lemma {:induction false} InsertAdds<T>(xs: seq<T>, x: T, key: T -> Bytes)
    ensures multiset(Insert(xs, x, key)) == multiset(xs) + multiset{x}
  {
    if xs != [] && LexLess(key(x), key(xs[|xs| - 1])) {
      assert xs == xs[..|xs| - 1] + [xs[|xs| - 1]];
      InsertAdds(xs[..|xs| - 1], x, key);
    }
  }

  lemma {:induction false} InsertSorts<T>(xs: seq<T>, x: T, key: T -> Bytes)
    requires Sorted(xs, key)
    ensures Sorted(Insert(xs, x, key), key)
  {
    if xs == [] {
    } else if !LexLess(key(x), key(xs[|xs| - 1])) {
      SortedAppend(xs, x, key);
    } else {
      var front, last := xs[..|xs| - 1], xs[|xs| - 1];
      InsertSorts(front, x, key);
      var r := Insert(front, x, key);
      LexAsymmetric(key(x), key(last));
      forall y | y in r ensures !LexLess(key(last), key(y)) {
        InsertAdds(front, x, key);
        assert y in multiset(r);
        assert y in front || y == x;
      }
    }
  }

  lemma SortedAppend<T>(xs: seq<T>, x: T, key: T -> Bytes)
    requires xs != [] && Sorted(xs, key) && !LexLess(key(x), key(xs[|xs| - 1]))
    ensures Sorted(xs + [x], key)
  {
    forall i | 0 <= i < |xs| ensures !LexLess(key(x), key(xs[i])) {
      LexIrreflexive(key(xs[i]));
      NotLessChain(key(xs[i]), key(xs[|xs| - 1]), key(x));
    }
  }

  lemma LexAsymmetric(a: Bytes, b: Bytes)
    requires LexLess(a, b)
    ensures !LexLess(b, a)
  {
    if LexLess(b, a) {
      LexTransitive(a, b, a);
      LexIrreflexive(a);
    }
  }

  lemma NotLessChain(a: Bytes, b: Bytes, c: Bytes)
    requires !LexLess(b, a) && !LexLess(c, b)
    ensures !LexLess(c, a)
  {
    LexTotal(a, b);
    LexTotal(b, c);
    if LexLess(c, a) {
      if LexLess(a, b) {
        LexTransitive(c, a, b);
      }
    }
  }

  /** Sorting sorts and keeps the elements. */
  lemma {:induction false} SortSorts<T>(xs: seq<T>, key: T -> Bytes)
    ensures Sorted(Sort(xs, key), key)
    ensures multiset(Sort(xs, key)) == multiset(xs)
    decreases |xs|
  {
    if xs != [] {
      var front, last := xs[..|xs| - 1], xs[|xs| - 1];
      assert xs == front + [last];
      SortSorts(front, key);
      InsertAdds(Sort(front, key), last, key);
      InsertSorts(Sort(front, key), last, key);
    }
  }

  /** Different elements have different keys. */
  ghost predicate KeysDiffer<T>(xs: seq<T>, key: T -> Bytes) {
    forall x, y :: x in xs && y in xs && x != y ==> key(x) != key(y)
  }

  lemma FirstIsLeast<T>(a: seq<T>, key: T -> Bytes, x: T)
    requires Sorted(a, key) && x in a
    ensures !LexLess(key(x), key(a[0]))
  {
    LexIrreflexive(key(x));
  }

  /** A sorted arrangement is unique if different elements have different keys. */
  lemma {:induction false} SortedUnique<T>(a: seq<T>, b: seq<T>, key: T -> Bytes)
    requires multiset(a) == multiset(b) && KeysDiffer(a, key)
    requires Sorted(a, key) && Sorted(b, key)
    ensures a == b
    decreases |a|
  {
    assert |a| == |multiset(a)| == |b|;
    if a != [] {
      var x, y := a[0], b[0];
      assert x in multiset(b) && y in multiset(a);
      FirstIsLeast(a, key, y);
      FirstIsLeast(b, key, x);
      LexTotal(key(x), key(y));
      assert x == y;
      RestSame(a, b);
      SortedUnique(a[1..], b[1..], key);
      assert a == [x] + a[1..] && b == [x] + b[1..];
    }
  }

  lemma RestSame<T>(a: seq<T>, b: seq<T>)
    requires multiset(a) == multiset(b) && a != [] && b != [] && a[0] == b[0]
    ensures multiset(a[1..]) == multiset(b[1..])
    ensures forall x :: x in a[1..] ==> x in a
  {
    assert a == [a[0]] + a[1..] && b == [b[0]] + b[1..];
    assert multiset(a[1..]) == multiset(a) - multiset{a[0]};
    assert multiset(b[1..]) == multiset(b) - multiset{b[0]};
  }

  /** Lists without repetition over the same elements are rearrangements of each other. */
  lemma {:induction false} SameElements<T>(a: seq<T>, b: seq<T>)
    requires Distinct(a) && Distinct(b) && forall x :: x in a <==> x in b
    ensures multiset(a) == multiset(b)
  {
    forall x ensures multiset(a)[x] == multiset(b)[x] {
      DistinctCount(a, x);
      DistinctCount(b, x);
    }
  }

  lemma {:induction false} DistinctCount<T>(a: seq<T>, x: T)
    requires Distinct(a)
    ensures multiset(a)[x] == if x in a then 1 else 0
    decreases |a|
  {
    if a != [] {
      DistinctCount(a[..|a| - 1], x);
      assert a == a[..|a| - 1] + [a[|a| - 1]];
    }
  }

  /** A rearrangement of a list without repetition has none, and the same elements. */
  lemma Rearranged<T>(a: seq<T>, b: seq<T>)
    requires Distinct(a) && multiset(a) == multiset(b)
    ensures Distinct(b) && forall x :: x in a <==> x in b
  {
    forall x ensures x in a <==> x in b {
      assert x in multiset(a) <==> x in multiset(b);
    }
    forall i, j | 0 <= i < j < |b| ensures b[i] != b[j] {
      DistinctCount(a, b[i]);
      assert b == b[..j] + b[j..];
      assert b[i] in b[..j];
      assert multiset(b)[b[i]] == multiset(b[..j])[b[i]] + multiset(b[j..])[b[i]];
      assert b[j] in b[j..];
    }
  }
}

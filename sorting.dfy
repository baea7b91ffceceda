/**
 * `Enumerable#sort_by`, as far as the documentation code relies on it: the result is a
 * permutation of the input, ordered non-decreasingly by the key. Ruby's sort is not stable, so
 * nothing is promised about the relative order of elements with equal keys; the insertion sort
 * below is one admissible outcome, and its contract states only what every outcome shares.
 */
module Sorting {

  /** `le` compares keys: it is total and transitive. */
  ghost predicate TotalPreorder<K(!new)>(le: (K, K) -> bool) {
    && (forall a, b :: le(a, b) || le(b, a))
    && (forall a, b, c :: le(a, b) && le(b, c) ==> le(a, c))
  }

  ghost predicate SortedBy<T, K>(xs: seq<T>, key: T -> K, le: (K, K) -> bool) {
    forall i, j :: 0 <= i < j < |xs| ==> le(key(xs[i]), key(xs[j]))
  }

  /** Putting in front an element whose key is below every other key keeps the sequence sorted. */
  lemma {:induction false} ConsSorted<T, K>(y: T, rest: seq<T>, key: T -> K, le: (K, K) -> bool)
    requires SortedBy(rest, key, le)
    requires forall z :: z in multiset(rest) ==> le(key(y), key(z))
    ensures SortedBy([y] + rest, key, le)
  {
    var r := [y] + rest;
    forall i, j | 0 <= i < j < |r| ensures le(key(r[i]), key(r[j])) {
      assert r[j] == rest[j - 1] && rest[j - 1] in multiset(rest);
      if i > 0 {
        assert r[i] == rest[i - 1];
      }
    }
  }

  /** An element whose key is below the smallest key of a sorted sequence is below all of them. */
  lemma {:induction false} BelowHead<T, K(!new)>(x: T, xs: seq<T>, key: T -> K, le: (K, K) -> bool)
    requires TotalPreorder(le) && SortedBy(xs, key, le)
    requires xs != [] && le(key(x), key(xs[0]))
    ensures forall z :: z in multiset(xs) ==> le(key(x), key(z))
  {
    forall z | z in multiset(xs) ensures le(key(x), key(z)) {
      var j :| 0 <= j < |xs| && xs[j] == z;
      if j > 0 {
        assert le(key(xs[0]), key(xs[j]));
      }
    }
  }

  function Insert<T, K(!new)>(x: T, xs: seq<T>, key: T -> K, le: (K, K) -> bool): (r: seq<T>)
    requires TotalPreorder(le)
    requires SortedBy(xs, key, le)
    ensures multiset(r) == multiset(xs) + multiset{x}
    ensures SortedBy(r, key, le)
  {
    if xs == [] then [x]
    else if le(key(x), key(xs[0])) then
      BelowHead(x, xs, key, le);
      ConsSorted(x, xs, key, le);
      [x] + xs
    else
      assert xs == [xs[0]] + xs[1..];
      var rest := Insert(x, xs[1..], key, le);
      assert forall y :: y in multiset(rest) ==> le(key(xs[0]), key(y)) by {
        forall y | y in multiset(rest) ensures le(key(xs[0]), key(y)) {
          if y != x {
            assert y in multiset(xs[1..]);
            var j :| 0 <= j < |xs[1..]| && xs[1..][j] == y;
            assert xs[j + 1] == y;
          }
        }
      }
      ConsSorted(xs[0], rest, key, le);
      [xs[0]] + rest
  }

  /** `xs.sort_by(&key)`, with `le` comparing the keys. */
  function SortBy<T, K(!new)>(xs: seq<T>, key: T -> K, le: (K, K) -> bool): (r: seq<T>)
    requires TotalPreorder(le)
    ensures multiset(r) == multiset(xs)
    ensures SortedBy(r, key, le)
  {
    if xs == [] then []
    else
      assert xs == [xs[0]] + xs[1..];
      Insert(xs[0], SortBy(xs[1..], key, le), key, le)
  }

  /** `String#<=>` as `a <= b`: character by character, a proper prefix first. */
  predicate LexLe(a: string, b: string) {
    a == [] || (b != [] && (a[0] < b[0] || (a[0] == b[0] && LexLe(a[1..], b[1..]))))
  }

  lemma {:induction false} LexLeTotal(a: string, b: string)
    ensures LexLe(a, b) || LexLe(b, a)
  {
    if a != [] && b != [] && a[0] == b[0] {
      LexLeTotal(a[1..], b[1..]);
    }
  }

  lemma {:induction false} LexLeTransitive(a: string, b: string, c: string)
    requires LexLe(a, b) && LexLe(b, c)
    ensures LexLe(a, c)
  {
    if a != [] && a[0] == b[0] && b[0] == c[0] {
      LexLeTransitive(a[1..], b[1..], c[1..]);
    }
  }

  /** Strings under `<=>` can be sorted. */
  lemma LexLeTotalPreorder()
    ensures TotalPreorder(LexLe)
  {
    forall a, b ensures LexLe(a, b) || LexLe(b, a) {
      LexLeTotal(a, b);
    }
    forall a, b, c | LexLe(a, b) && LexLe(b, c) ensures LexLe(a, c) {
      LexLeTransitive(a, b, c);
    }
  }
}

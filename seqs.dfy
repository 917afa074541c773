/** Sequence helpers shared by both source files: an Option type for
    JavaScript's `undefined`/`null`, and `Filter`, the model of
    `Array.prototype.filter` (order-preserving, pure). */
module Seqs {

  datatype Option<+T> = None | Some(value: T)

  /** `a` can be obtained from `b` by deleting elements (order kept). */
  ghost predicate IsSubsequence<T>(a: seq<T>, b: seq<T>)
    decreases |b|
  {
    if a == [] then true
    else if b == [] then false
    else (a[0] == b[0] && IsSubsequence(a[1..], b[1..])) || IsSubsequence(a, b[1..])
  }

  /** No two positions hold the same key. */
  ghost predicate DistinctBy<T, K>(s: seq<T>, key: T -> K)
  {
    forall i, j :: 0 <= i < j < |s| ==> key(s[i]) != key(s[j])
  }

  /** `xs.filter(keep)`: the elements of `s` that satisfy `keep`, in order. */
  function Filter<T>(s: seq<T>, keep: T -> bool): (r: seq<T>)
    ensures |r| <= |s|
    ensures forall x :: x in r ==> x in s && keep(x)
    ensures forall x :: x in s && keep(x) ==> x in r
  {
    if s == [] then []
    else if keep(s[0]) then [s[0]] + Filter(s[1..], keep)
    else Filter(s[1..], keep)
  }

  /** Filtering one more element at the end, as a loop that pushes does. */
  lemma {:induction false} FilterSnoc<T>(s: seq<T>, x: T, keep: T -> bool)
    ensures Filter(s + [x], keep) == Filter(s, keep) + (if keep(x) then [x] else [])
  {
    if s == [] {
      assert s + [x] == [x];
    } else {
      assert (s + [x])[1..] == s[1..] + [x];
      FilterSnoc(s[1..], x, keep);
    }
  }

  /** Filtering a sequence with one more element at the front. */
  lemma FilterCons<T>(x: T, s: seq<T>, keep: T -> bool)
    ensures Filter([x] + s, keep) == (if keep(x) then [x] else []) + Filter(s, keep)
  {
    assert ([x] + s)[1..] == s;
  }

  /** Filtering two sequences that differ by `extra` after filtering,
      each with the same element put in front. */
  lemma FilterConsAppend<T>(x: T, a: seq<T>, b: seq<T>, extra: seq<T>, keep: T -> bool)
    requires Filter(a, keep) == Filter(b, keep) + extra
    ensures Filter([x] + a, keep) == Filter([x] + b, keep) + extra
  {
    FilterCons(x, a, keep);
    FilterCons(x, b, keep);
    if keep(x) {
      ConsAssoc(x, Filter(b, keep), extra);
    }
  }

  lemma ConsAssoc<T>(x: T, a: seq<T>, b: seq<T>)
    ensures [x] + (a + b) == ([x] + a) + b
  {
  }

  /** Filtering distributes over concatenation. */
  lemma {:induction false} FilterAppend<T>(a: seq<T>, b: seq<T>, keep: T -> bool)
    ensures Filter(a + b, keep) == Filter(a, keep) + Filter(b, keep)
  {
    if a != [] {
      assert a + b == [a[0]] + (a[1..] + b);
      assert a == [a[0]] + a[1..];
      FilterAppend(a[1..], b, keep);
      FilterConsAppend(a[0], a[1..] + b, a[1..], Filter(b, keep), keep);
    } else {
      assert a + b == b;
    }
  }

  /** A sequence is its prefix followed by the rest. */
  lemma SplitAt<T>(s: seq<T>, k: nat)
    requires k <= |s|
    ensures s == s[..k] + s[k..]
  {
  }

  /** Cutting the rest of a sequence once more. */
  lemma SplitTwice<T>(s: seq<T>, i: nat, n: nat)
    requires i + n <= |s|
    ensures s == s[..i] + s[i..][..n] + s[i..][n..]
  {
    assert s[i..] == s[i..][..n] + s[i..][n..];
  }

  lemma EmptyFront<T>(b: seq<T>)
    ensures [] + b == b
  {
  }

  /** One more element of a prefix. */
  lemma PrefixSnoc<T>(s: seq<T>, i: nat)
    requires i < |s|
    ensures s[..i + 1] == s[..i] + [s[i]]
  {
  }

  /** Two filters in a row are one filter by the conjunction. */
  lemma {:induction false} FilterFilter<T>(s: seq<T>, p: T -> bool, q: T -> bool, both: T -> bool)
    requires forall x :: both(x) == (p(x) && q(x))
    ensures Filter(Filter(s, p), q) == Filter(s, both)
  {
    if s != [] {
      FilterFilter(s[1..], p, q, both);
      if p(s[0]) {
        FilterCons(s[0], Filter(s[1..], p), q);
      }
    }
  }

  /** A filter keeps every occurrence of what passes and none of the rest. */
  lemma {:induction false} FilterCounts<T>(s: seq<T>, keep: T -> bool)
    ensures forall x :: multiset(Filter(s, keep))[x] == if keep(x) then multiset(s)[x] else 0
  {
    if s != [] {
      FilterCounts(s[1..], keep);
      assert s == [s[0]] + s[1..];
      assert multiset(s) == multiset{s[0]} + multiset(s[1..]);
    }
  }

  /** A filter that keeps every element is the identity. */
  lemma {:induction false} FilterKeepsAll<T>(s: seq<T>, keep: T -> bool)
    requires forall x :: x in s ==> keep(x)
    ensures Filter(s, keep) == s
  {
    if s != [] {
      FilterKeepsAll(s[1..], keep);
    }
  }

  /** A filter that keeps no element is empty. */
  lemma {:induction false} FilterKeepsNone<T>(s: seq<T>, keep: T -> bool)
    requires forall x :: x in s ==> !keep(x)
    ensures Filter(s, keep) == []
  {
    if s != [] {
      FilterKeepsNone(s[1..], keep);
    }
  }

  /** A filter keeps the order of what it keeps. */
  lemma {:induction false} FilterIsSubsequence<T>(s: seq<T>, keep: T -> bool)
    ensures IsSubsequence(Filter(s, keep), s)
  {
    if s != [] {
      FilterIsSubsequence(s[1..], keep);
      if !keep(s[0]) {
        SubsequenceOfTail(Filter(s[1..], keep), s);
      }
    }
  }

  lemma {:induction false} SubsequenceOfTail<T>(a: seq<T>, b: seq<T>)
    requires b != []
    requires IsSubsequence(a, b[1..])
    ensures IsSubsequence(a, b)
  {
  }

  /** Two keep-predicates that agree on the elements give the same filter. */
  lemma {:induction false} FilterCongruent<T>(s: seq<T>, f: T -> bool, g: T -> bool)
    requires forall x :: x in s ==> f(x) == g(x)
    ensures Filter(s, f) == Filter(s, g)
  {
    if s != [] {
      FilterCongruent(s[1..], f, g);
    }
  }

  /** Everything in a subsequence is in the sequence. */
  lemma {:induction false} SubsequenceMembers<T>(a: seq<T>, b: seq<T>)
    requires IsSubsequence(a, b)
    ensures forall x :: x in a ==> x in b
  {
    if a != [] && b != [] {
      if a[0] == b[0] && IsSubsequence(a[1..], b[1..]) {
        SubsequenceMembers(a[1..], b[1..]);
        forall x | x in a ensures x in b {
          if x != a[0] {
            var i :| 0 <= i < |a| && a[i] == x;
            assert a[1..][i - 1] == x;
            assert x in b[1..];
            var k :| 0 <= k < |b[1..]| && b[1..][k] == x;
            assert b[k + 1] == x;
          }
        }
      } else {
        SubsequenceMembers(a, b[1..]);
      }
    }
  }

  /** A subsequence of a sequence with distinct keys has distinct keys. */
  lemma {:induction false} SubsequenceDistinct<T, K>(a: seq<T>, b: seq<T>, key: T -> K)
    requires IsSubsequence(a, b) && DistinctBy(b, key)
    ensures DistinctBy(a, key)
  {
    if a != [] && b != [] {
      assert DistinctBy(b[1..], key) by {
        forall i, j | 0 <= i < j < |b[1..]| ensures key(b[1..][i]) != key(b[1..][j]) {
          assert b[1..][i] == b[i + 1] && b[1..][j] == b[j + 1];
        }
      }
      if a[0] == b[0] && IsSubsequence(a[1..], b[1..]) {
        SubsequenceDistinct(a[1..], b[1..], key);
        SubsequenceMembers(a[1..], b[1..]);
        forall j | 0 < j < |a| ensures key(a[0]) != key(a[j]) {
          assert a[j] == a[1..][j - 1];
          assert a[j] in b[1..];
          var k :| 0 <= k < |b[1..]| && b[1..][k] == a[j];
          assert b[k + 1] == a[j];
        }
      } else {
        SubsequenceDistinct(a, b[1..], key);
      }
    }
  }

  /** The elements of all the sequences, one after the other. */
  function Concat<T>(ss: seq<seq<T>>): seq<T>
  {
    if ss == [] then [] else ss[0] + Concat(ss[1..])
  }

  lemma ConcatCons<T>(s: seq<T>, ss: seq<seq<T>>)
    ensures Concat([s] + ss) == s + Concat(ss)
  {
    assert ([s] + ss)[1..] == ss;
  }

  /** `xs.slice(0, n)`. */
  function Take<T>(s: seq<T>, n: nat): (r: seq<T>)
    ensures |r| == if |s| <= n then |s| else n
    ensures |s| <= n ==> r == s
    ensures r == s[..|r|]
  {
    if |s| <= n then s else s[..n]
  }

  /** `xs.map(f)`. */
  function Map<T, U>(s: seq<T>, f: T -> U): (r: seq<U>)
    ensures |r| == |s|
    ensures forall i :: 0 <= i < |s| ==> r[i] == f(s[i])
  {
    seq(|s|, i requires 0 <= i < |s| => f(s[i]))
  }

  lemma MapSnoc<T, U>(s: seq<T>, x: T, f: T -> U)
    ensures Map(s + [x], f) == Map(s, f) + [f(x)]
  {
  }
}

/** Sequence notions used to state what the extraction keeps and in what
    order: subsequences, distinctness, and `[...new Set(xs)]`. */
module Seqs {

  /** `a` is `b` with some elements left out, the rest in order. */
  predicate IsSubsequence<T(==)>(a: seq<T>, b: seq<T>)
    decreases |b|
  {
    if a == [] then true
    else if b == [] then false
    else (a[0] == b[0] && IsSubsequence(a[1..], b[1..])) || IsSubsequence(a, b[1..])
  }

  /** No element occurs twice. */
  predicate Distinct<T(==)>(s: seq<T>) {
    forall i, j :: 0 <= i < j < |s| ==> s[i] != s[j]
  }

  /** The position of the first occurrence of `x` in `s`. */
  function FirstIndex<T(==)>(s: seq<T>, x: T): (k: nat)
    requires x in s
    ensures k < |s| && s[k] == x
    ensures forall j :: 0 <= j < k ==> s[j] != x
  {
    if s[0] == x then 0 else 1 + FirstIndex(s[1..], x)
  }

  /** The first occurrence of `x` in a longer sequence is the same as in
      its prefix, when the prefix already has `x`. */
  lemma FirstIndexPrefix<T>(s: seq<T>, n: nat, x: T)
    requires n <= |s| && x in s[..n]
    ensures x in s && FirstIndex(s, x) == FirstIndex(s[..n], x)
  {
    var k := FirstIndex(s[..n], x);
    assert s[k] == x;
    assert forall j :: 0 <= j < k ==> s[j] != x by {
      forall j | 0 <= j < k ensures s[j] != x {
        assert s[j] == s[..n][j];
      }
    }
    var m := FirstIndex(s, x);
    assert m <= k;
  }

  /** `[...new Set(s)]`: the elements of `s` without repetitions, each at
      the place of its first occurrence. A set iterates in insertion order,
      and inserting an element already present leaves it where it was. */
  function Dedup<T(==,!new)>(s: seq<T>): (r: seq<T>)
    ensures Distinct(r)
    ensures forall x :: x in r <==> x in s
    ensures forall i, j :: 0 <= i < j < |r| ==> FirstIndex(s, r[i]) < FirstIndex(s, r[j])
    decreases |s|
  {
    if s == [] then []
    else
      var n := |s| - 1;
      var r := Dedup(s[..n]);
      assert forall x :: x in s <==> x in s[..n] || x == s[n] by {
        assert s == s[..n] + [s[n]];
      }
      forall k | 0 <= k < |r| ensures FirstIndex(s, r[k]) == FirstIndex(s[..n], r[k]) {
        FirstIndexPrefix(s, n, r[k]);
      }
      if s[n] in r then r
      else
        assert FirstIndex(s, s[n]) == n;
        r + [s[n]]
  }
}

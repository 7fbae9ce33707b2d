/**
 * `itertools.permutations(s, k)` from Python's standard library: every arrangement of `k`
 * distinct POSITIONS of `s`, in lexicographic order of the positions. Equal elements at
 * different positions give equal tuples, which are all listed.
 */
module Itertools {
  import opened Seqs

  function Permutations<T>(s: seq<T>, k: nat): seq<seq<T>>
    decreases k, 1
  {
    if k == 0 then [[]] else PermutationsFrom(s, k, 0)
  }

  /** The arrangements whose first position is `j` or later. */
  function PermutationsFrom<T>(s: seq<T>, k: nat, j: nat): seq<seq<T>>
    requires 0 < k && j <= |s|
    decreases k, 0, |s| - j
  {
    if j == |s| then []
    else PrependAll(s[j], Permutations(RemoveAt(s, j), k - 1)) + PermutationsFrom(s, k, j + 1)
  }

  function PrependAll<T>(x: T, ps: seq<seq<T>>): (r: seq<seq<T>>)
    ensures |r| == |ps|
    ensures forall i :: 0 <= i < |ps| ==> r[i] == [x] + ps[i]
  {
    seq(|ps|, i requires 0 <= i < |ps| => [x] + ps[i])
  }

  /** Every listed arrangement has length `k` and takes its elements from `s`, each at most as often as `s` holds it. */
  lemma {:induction false} PermutationsSound<T>(s: seq<T>, k: nat, p: seq<T>)
    requires p in Permutations(s, k)
    ensures |p| == k && multiset(p) <= multiset(s)
    decreases k, 1
  {
    if k > 0 {
      PermutationsFromSound(s, k, 0, p);
    }
  }

  lemma {:induction false} PermutationsFromSound<T>(s: seq<T>, k: nat, j: nat, p: seq<T>)
    requires 0 < k && j <= |s|
    requires p in PermutationsFrom(s, k, j)
    ensures |p| == k && multiset(p) <= multiset(s)
    decreases k, 0, |s| - j
  {
    var head := PrependAll(s[j], Permutations(RemoveAt(s, j), k - 1));
    if p in head {
      var i :| 0 <= i < |head| && head[i] == p;
      var q := Permutations(RemoveAt(s, j), k - 1)[i];
      PermutationsSound(RemoveAt(s, j), k - 1, q);
      RemoveAtMultiset(s, j);
      assert p == [s[j]] + q;
      assert multiset(p) == multiset{s[j]} + multiset(q);
    } else {
      PermutationsFromSound(s, k, j + 1, p);
    }
  }

  /** Every arrangement of length `k` drawn from `s` is listed: nothing valid is dropped. */
  lemma {:induction false} PermutationsComplete<T>(s: seq<T>, k: nat, p: seq<T>)
    requires |p| == k && multiset(p) <= multiset(s)
    ensures p in Permutations(s, k)
    decreases k
  {
    if k > 0 {
      assert p == [p[0]] + p[1..];
      assert multiset(p) == multiset{p[0]} + multiset(p[1..]);
      assert p[0] in multiset(s);
      var i :| 0 <= i < |s| && s[i] == p[0];
      RemoveAtMultiset(s, i);
      assert multiset(p[1..]) <= multiset(RemoveAt(s, i));
      PermutationsComplete(RemoveAt(s, i), k - 1, p[1..]);
      PermutationsFromContains(s, k, 0, i, p[1..]);
    }
  }

  lemma {:induction false} PermutationsFromContains<T>(s: seq<T>, k: nat, j: nat, i: nat, q: seq<T>)
    requires 0 < k && j <= i < |s|
    requires q in Permutations(RemoveAt(s, i), k - 1)
    ensures [s[i]] + q in PermutationsFrom(s, k, j)
    decreases i - j
  {
    if j < i {
      PermutationsFromContains(s, k, j + 1, i, q);
    } else {
      var ps := Permutations(RemoveAt(s, i), k - 1);
      var n :| 0 <= n < |ps| && ps[n] == q;
      assert PrependAll(s[i], ps)[n] == [s[i]] + q;
    }
  }
}

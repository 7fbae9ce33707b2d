/** Facts about sequences that the model uses for Python lists. */
module Seqs {

  /** No element occurs twice. */
  predicate Distinct<T(==)>(s: seq<T>) {
    forall i, j :: 0 <= i < j < |s| ==> s[i] != s[j]
  }

  /** Appending keeps a list duplicate-free exactly when the new element is not already in it. */
  lemma DistinctSnoc<T>(s: seq<T>, x: T)
    ensures Distinct(s + [x]) <==> Distinct(s) && x !in s
  {
    var r := s + [x];
    if Distinct(r) {
      forall i, j | 0 <= i < j < |s| ensures s[i] != s[j] {
        assert r[i] == s[i] && r[j] == s[j];
      }
      forall k | 0 <= k < |s| ensures s[k] != x {
        assert r[k] == s[k] && r[|s|] == x;
      }
    }
  }

  /** A non-empty list is its front followed by its last element. */
  lemma InitLast<T>(s: seq<T>)
    requires s != []
    ensures s == s[..|s| - 1] + [s[|s| - 1]]
  {
  }

  /** The prefix one element longer is the prefix followed by that element. */
  lemma PrefixStep<T>(s: seq<T>, k: nat)
    requires k < |s|
    ensures s[..k + 1][..k] == s[..k] && s[..k + 1] == s[..k] + [s[k]]
  {
  }

  /** The full-length prefix is the list itself. */
  lemma WholePrefix<T>(s: seq<T>)
    ensures s[..|s|] == s
  {
  }

  /** Python's `set(s)`. */
  function ToSet<T>(s: seq<T>): set<T> {
    set x | x in s
  }

  /** `len(set(s)) == len(s)` is how the source tests that a list has no duplicates. */
  lemma {:induction false} ToSetCardinality<T>(s: seq<T>)
    ensures |ToSet(s)| <= |s|
    ensures |ToSet(s)| == |s| <==> Distinct(s)
  {
    if s != [] {
      var init, x := s[..|s| - 1], s[|s| - 1];
      ToSetCardinality(init);
      assert s == init + [x];
      assert ToSet(s) == ToSet(init) + {x};
      if x in init {
        var k :| 0 <= k < |init| && init[k] == x;
        assert s[k] == s[|s| - 1];
        assert ToSet(s) == ToSet(init);
      } else {
        assert x !in ToSet(init);
        assert |ToSet(s)| == |ToSet(init)| + 1;
        if Distinct(init) {
          forall i, j | 0 <= i < j < |s| ensures s[i] != s[j] {
            if j == |s| - 1 {
              assert s[i] in init;
            } else {
              assert s[i] == init[i] && s[j] == init[j];
            }
          }
        } else {
          var i, j :| 0 <= i < j < |init| && init[i] == init[j];
          assert s[i] == s[j];
        }
      }
    }
  }

  /** The list without position `j`. */
  function RemoveAt<T>(s: seq<T>, j: nat): (r: seq<T>)
    requires j < |s|
    ensures |r| == |s| - 1
  {
    s[..j] + s[j + 1..]
  }

  lemma RemoveAtMultiset<T>(s: seq<T>, j: nat)
    requires j < |s|
    ensures multiset(RemoveAt(s, j)) == multiset(s) - multiset{s[j]}
  {
    assert s == s[..j] + [s[j]] + s[j + 1..];
  }

  /** Python's `s.remove(x)`: drops the first occurrence of `x`. */
  function RemoveFirst<T(==)>(s: seq<T>, x: T): (r: seq<T>)
    requires x in s
    ensures |r| == |s| - 1
    ensures forall i :: 0 <= i < |r| ==> r[i] in s
  {
    assert s[0] != x ==> x in s[1..];
    if s[0] == x then s[1..] else [s[0]] + RemoveFirst(s[1..], x)
  }

  /** Removing the first occurrence of `s[j]` removes position `j` when no earlier element equals it. */
  lemma {:induction false} RemoveFirstAt<T>(s: seq<T>, j: nat)
    requires j < |s|
    requires forall k :: 0 <= k < j ==> s[k] != s[j]
    ensures RemoveFirst(s, s[j]) == RemoveAt(s, j)
  {
    if j > 0 {
      var t := s[1..];
      assert t[j - 1] == s[j];
      assert forall k :: 0 <= k < j - 1 ==> t[k] != t[j - 1] by {
        forall k | 0 <= k < j - 1 ensures t[k] != t[j - 1] { assert t[k] == s[k + 1]; }
      }
      RemoveFirstAt(t, j - 1);
      calc {
        RemoveFirst(s, s[j]);
        [s[0]] + RemoveFirst(t, s[j]);
        [s[0]] + (t[..j - 1] + t[j..]);
        { assert [s[0]] + t[..j - 1] == s[..j]; assert t[j..] == s[j + 1..]; }
        s[..j] + s[j + 1..];
      }
    }
  }

  lemma {:induction false} RemoveFirstMultiset<T>(s: seq<T>, x: T)
    requires x in s
    ensures multiset(RemoveFirst(s, x)) == multiset(s) - multiset{x}
    ensures multiset{x} + multiset(RemoveFirst(s, x)) == multiset(s)
  {
    assert s == [s[0]] + s[1..];
    if s[0] != x {
      RemoveFirstMultiset(s[1..], x);
    }
  }

  /** In a list without duplicates every element occurs once. */
  lemma {:induction false} DistinctMultiplicity<T>(s: seq<T>, x: T)
    requires Distinct(s)
    ensures multiset(s)[x] <= 1
  {
    if s != [] {
      assert s == [s[0]] + s[1..];
      assert Distinct(s[1..]) by {
        forall i, j | 0 <= i < j < |s| - 1 ensures s[1..][i] != s[1..][j] {
          assert s[1..][i] == s[i + 1] && s[1..][j] == s[j + 1];
        }
      }
      DistinctMultiplicity(s[1..], x);
      if s[0] == x {
        assert x !in s[1..] by {
          forall i | 0 <= i < |s| - 1 ensures s[1..][i] != x { assert s[1..][i] == s[i + 1]; }
        }
      }
    }
  }

  /**
   * Python's `list({x: None for x in s})`: the elements of `s` in order of first occurrence,
   * each once (a dict keeps the first insertion position of a key).
   */
  function Dedup<T(==,!new)>(s: seq<T>): (r: seq<T>)
    ensures Distinct(r)
    ensures forall x :: x in r <==> x in s
  {
    if s == [] then []
    else
      var r0 := Dedup(s[..|s| - 1]);
      var x := s[|s| - 1];
      assert s == s[..|s| - 1] + [x];
      if x in r0 then r0 else r0 + [x]
  }
}

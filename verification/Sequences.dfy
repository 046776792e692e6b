/** Sequences without repetition, as page lists and frame orders are. */
module Sequences {

  ghost predicate Distinct<T(!new)>(s: seq<T>) {
    forall i, j | 0 <= i < j < |s| :: s[i] != s[j]
  }

  ghost function ToSet<T>(s: seq<T>): set<T> {
    set x | x in s
  }

  /** `s` without its first occurrence of `x`. */
  function Remove<T(==)>(s: seq<T>, x: T): seq<T> {
    if s == [] then []
    else if s[0] == x then s[1..]
    else [s[0]] + Remove(s[1..], x)
  }

  /** The first `n` elements, or all of them. */
  function Take<T>(s: seq<T>, n: nat): seq<T> {
    if n <= |s| then s[..n] else s
  }

  lemma {:induction false} DistinctSize<T(!new)>(s: seq<T>)
    requires Distinct(s)
    ensures |ToSet(s)| == |s|
  {
    if s == [] {
      assert ToSet(s) == {};
    } else {
      DistinctSize(s[1..]);
      assert ToSet(s) == {s[0]} + ToSet(s[1..]);
      assert s[0] !in ToSet(s[1..]);
    }
  }

  lemma SubsetSize<T>(a: set<T>, b: set<T>)
    requires a <= b
    ensures |a| <= |b|
  {
    assert b == a + (b - a);
  }

  /** A list without repetition drawn from `d` is no longer than `d` is large. */
  lemma DistinctWithin<T(!new)>(s: seq<T>, d: set<T>)
    requires Distinct(s) && forall i | 0 <= i < |s| :: s[i] in d
    ensures |s| <= |d|
  {
    DistinctSize(s);
    SubsetSize(ToSet(s), d);
  }

  lemma {:induction false} RemoveAt<T(!new)>(s: seq<T>, x: T, k: nat)
    requires Distinct(s) && k < |s| && s[k] == x
    ensures Remove(s, x) == s[..k] + s[k + 1..]
  {
    if k > 0 {
      RemoveAt(s[1..], x, k - 1);
      assert s[0] != x;
      assert s[1..][..k - 1] == s[1..k];
      assert s[1..][k..] == s[k + 1..];
    }
  }

  lemma {:induction false} RemoveAbsent<T>(s: seq<T>, x: T)
    requires x !in s
    ensures Remove(s, x) == s
  {
    if s != [] {
      RemoveAbsent(s[1..], x);
    }
  }

  lemma Cons<T(!new)>(a: T, r: seq<T>)
    ensures forall y :: y in [a] + r <==> y == a || y in r
    ensures Distinct([a] + r) <==> Distinct(r) && a !in r
  {
    var s := [a] + r;
    if Distinct(s) {
      forall i, j | 0 <= i < j < |r|
        ensures r[i] != r[j]
      {
        assert s[i + 1] != s[j + 1];
      }
      forall j | 0 <= j < |r|
        ensures r[j] != a
      {
        assert s[0] != s[j + 1];
      }
    }
    if Distinct(r) && a !in r {
      forall i, j | 0 <= i < j < |s|
        ensures s[i] != s[j]
      {
        assert s[j] == r[j - 1] && (i > 0 ==> s[i] == r[i - 1]);
      }
    }
  }

  /** Removing keeps the absence of repetition, and loses only `x`. */
  lemma {:induction false} RemoveFacts<T(!new)>(s: seq<T>, x: T)
    requires Distinct(s)
    ensures Distinct(Remove(s, x)) && x !in Remove(s, x)
    ensures forall y :: y in Remove(s, x) <==> y in s && y != x
    ensures |Remove(s, x)| == if x in s then |s| - 1 else |s|
  {
    if s != [] {
      hide Distinct;
      assert s == [s[0]] + s[1..];
      Cons(s[0], s[1..]);
      if s[0] != x {
        RemoveFacts(s[1..], x);
        Cons(s[0], Remove(s[1..], x));
      }
    } else {
      assert Remove(s, x) == [];
    }
  }

  /** What is in order after a removal was in order before it. */
  lemma RemoveOrder<T(!new)>(s: seq<T>, x: T, i: nat, j: nat) returns (i': nat, j': nat)
    requires Distinct(s) && i < j < |Remove(s, x)|
    ensures i' < j' < |s| && s[i'] == Remove(s, x)[i] && s[j'] == Remove(s, x)[j]
  {
    if x in s {
      var k :| 0 <= k < |s| && s[k] == x;
      RemoveAt(s, x, k);
      i', j' := if i < k then i else i + 1, if j < k then j else j + 1;
    } else {
      RemoveAbsent(s, x);
      i', j' := i, j;
    }
  }

  lemma TakeNext<T>(s: seq<T>, i: nat)
    requires i < |s|
    ensures s[..i + 1] == s[..i] + [s[i]]
  {
  }

  lemma PrefixOfPrefix<T>(s: seq<T>, i: nat, j: nat)
    requires i < j <= |s|
    ensures s[..j][..i] == s[..i] && s[..j][i] == s[i]
  {
  }
}

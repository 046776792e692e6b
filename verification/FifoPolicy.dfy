/** First-in-first-out replacement on page numbers.

    A state is the list of resident pages, earliest loaded first.  FifoQueue
    proves that the chain of A3/fifo.c computes this policy. */
module FifoPolicy {
  import opened Sequences

  function Step(s: seq<nat>, p: nat, m: nat): seq<nat>
    requires 0 < m
  {
    if p in s then s
    else if |s| < m then s + [p]
    else s[1..] + [p]
  }

  function From(s: seq<nat>, u: seq<nat>, m: nat): seq<nat>
    requires 0 < m
  {
    if u == [] then s else Step(From(s, u[..|u| - 1], m), u[|u| - 1], m)
  }

  ghost predicate Proper(s: seq<nat>, m: nat) {
    Distinct(s) && |s| <= m
  }

  lemma StepProper(s: seq<nat>, p: nat, m: nat)
    requires 0 < m && Proper(s, m)
    ensures Proper(Step(s, p, m), m)
  {
  }

  /** The pages that miss somewhere in the stretch `u` from `s`. */
  ghost function Loaded(s: seq<nat>, u: seq<nat>, m: nat): set<nat>
    requires 0 < m
  {
    if u == [] then {}
    else
      var t, p := u[..|u| - 1], u[|u| - 1];
      Loaded(s, t, m) + if p in From(s, t, m) then {} else {p}
  }

  /** The pages loaded in the stretch are resident, behind every older page. */
  ghost predicate LoadedBehind(s: seq<nat>, l: set<nat>) {
    && (forall p | p in l :: p in s)
    && forall i, j | 0 <= i < j < |s| && s[i] in l :: s[j] in l
  }

  lemma LoadStep(s: seq<nat>, p: nat, m: nat, l: set<nat>, d: set<nat>)
    requires 0 < m && Proper(s, m) && LoadedBehind(s, l)
    requires l <= d && p in d && |d| <= m && p !in s
    ensures LoadedBehind(Step(s, p, m), l + {p})
  {
    var s' := Step(s, p, m);
    assert s'[|s'| - 1] == p;
    if |s| == m && s[0] in l {
      var all := s + [p];
      forall i | 0 <= i < |all|
        ensures all[i] in d
      {
        assert i < |s| ==> s[i] in l;
      }
      DistinctWithin(all, d);
      assert false;
    } else {
      forall q | q in l
        ensures q in s'
      {
        var k :| 0 <= k < |s| && s[k] == q;
        assert s'[if |s| < m then k else k - 1] == q;
      }
    }
  }

  lemma {:induction false} StretchKeeps(s: seq<nat>, u: seq<nat>, m: nat, d: set<nat>)
    requires 0 < m && Proper(s, m) && |d| <= m
    requires forall i | 0 <= i < |u| :: u[i] in d
    ensures Proper(From(s, u, m), m)
    ensures Loaded(s, u, m) <= d && LoadedBehind(From(s, u, m), Loaded(s, u, m))
  {
    if u != [] {
      var t, p := u[..|u| - 1], u[|u| - 1];
      StretchKeeps(s, t, m, d);
      StepProper(From(s, t, m), p, m);
      if p !in From(s, t, m) {
        LoadStep(From(s, t, m), p, m, Loaded(s, t, m), d);
      }
    }
  }

  /** Whether reference `i` of the stretch is a miss. */
  ghost predicate MissAt(s: seq<nat>, u: seq<nat>, m: nat, i: nat)
    requires 0 < m && i < |u|
  {
    u[i] !in From(s, u[..i], m)
  }

  lemma {:induction false} MissIsLoaded(s: seq<nat>, u: seq<nat>, m: nat, i: nat)
    requires 0 < m && i < |u| && MissAt(s, u, m, i)
    ensures u[i] in Loaded(s, u, m)
  {
    if i < |u| - 1 {
      PrefixOfPrefix(u, i, |u| - 1);
      MissIsLoaded(s, u[..|u| - 1], m, i);
    }
  }

  /** In a stretch over at most `m` distinct pages, from any state, no page misses twice. */
  lemma NoSecondMiss(s: seq<nat>, u: seq<nat>, m: nat, i: nat, j: nat)
    requires 0 < m && Proper(s, m) && |ToSet(u)| <= m
    requires i < j < |u| && u[i] == u[j] && MissAt(s, u, m, i)
    ensures !MissAt(s, u, m, j)
  {
    StretchKeeps(s, u[..j], m, ToSet(u));
    PrefixOfPrefix(u, i, j);
    MissIsLoaded(s, u[..j], m, i);
  }

  // ----- the list, in terms of the references

  /** The references that missed, in order. */
  function LoadTimes(u: seq<nat>, m: nat): seq<nat>
    requires 0 < m
  {
    if u == [] then []
    else
      var t := u[..|u| - 1];
      if u[|t|] in From([], t, m) then LoadTimes(t, m) else LoadTimes(t, m) + [|t|]
  }

  /** The pages they loaded. */
  function Loads(u: seq<nat>, m: nat): seq<nat>
    requires 0 < m
  {
    if u == [] then []
    else
      var t := u[..|u| - 1];
      if u[|t|] in From([], t, m) then Loads(t, m) else Loads(t, m) + [u[|t|]]
  }

  ghost predicate Increasing(s: seq<nat>) {
    forall i, j | 0 <= i < j < |s| :: s[i] < s[j]
  }

  lemma {:induction false} TimesMeaning(u: seq<nat>, m: nat)
    requires 0 < m
    ensures forall k: nat :: k in LoadTimes(u, m) <==> k < |u| && MissAt([], u, m, k)
    ensures Increasing(LoadTimes(u, m))
  {
    hide From;
    if u != [] {
      var t := u[..|u| - 1];
      TimesMeaning(t, m);
      forall k: nat
        ensures k in LoadTimes(u, m) <==> k < |u| && MissAt([], u, m, k)
      {
        if k < |t| {
          PrefixOfPrefix(u, k, |t|);
        }
      }
      var times := LoadTimes(t, m);
      forall i | 0 <= i < |times|
        ensures times[i] < |t|
      {
        assert times[i] in times;
      }
    }
  }

  lemma {:induction false} LoadsAtTimes(u: seq<nat>, m: nat, i: nat)
    requires 0 < m
    ensures |LoadTimes(u, m)| == |Loads(u, m)|
    ensures i < |Loads(u, m)| ==> LoadTimes(u, m)[i] < |u| && Loads(u, m)[i] == u[LoadTimes(u, m)[i]]
  {
    if u != [] {
      LoadsAtTimes(u[..|u| - 1], m, i);
    }
  }

  /** The last `m` elements, or all of them. */
  function Last(s: seq<nat>, m: nat): seq<nat> {
    if |s| <= m then s else s[|s| - m..]
  }

  /** The resident pages are the last `m` pages loaded. */
  lemma {:induction false} ResidentsAreLastLoads(u: seq<nat>, m: nat)
    requires 0 < m
    ensures From([], u, m) == Last(Loads(u, m), m) && Distinct(From([], u, m))
  {
    if u != [] {
      var t, p := u[..|u| - 1], u[|u| - 1];
      ResidentsAreLastLoads(t, m);
      StepProper(From([], t, m), p, m);
      LastAppend(Loads(t, m), p, m);
    }
  }

  lemma LastAppend(s: seq<nat>, p: nat, m: nat)
    requires 0 < m
    ensures Last(s + [p], m) == if |s| < m then s + [p] else Last(s, m)[1..] + [p]
  {
  }

  /** Reference `k` is the last that loaded page `p`. */
  ghost predicate LastLoad(u: seq<nat>, m: nat, p: nat, k: nat)
    requires 0 < m
  {
    k < |u| && u[k] == p && MissAt([], u, m, k) && forall j: nat | k < j < |u| && u[j] == p :: !MissAt([], u, m, j)
  }

  lemma LastDiffer(s: seq<nat>, m: nat, at: nat, b: nat)
    requires Distinct(Last(s, m)) && at < b < |s| <= at + m
    ensures s[at] != s[b]
  {
    var off := |s| - |Last(s, m)|;
    assert Last(s, m)[at - off] != Last(s, m)[b - off];
  }

  /** A page that is still resident was not loaded again. */
  lemma NotLoadedAgain(u: seq<nat>, m: nat, at: nat, j: nat)
    requires 0 < m && |Loads(u, m)| == |LoadTimes(u, m)| && at < |Loads(u, m)| <= at + m
    requires LoadTimes(u, m)[at] < j < |u| && MissAt([], u, m, j)
    ensures u[j] != Loads(u, m)[at]
  {
    hide From, Loads, LoadTimes, Last, MissAt;
    TimesMeaning(u, m);
    var b: nat :| b < |LoadTimes(u, m)| && LoadTimes(u, m)[b] == j;
    LoadsAtTimes(u, m, b);
    ResidentsAreLastLoads(u, m);
    LastDiffer(Loads(u, m), m, at, b);
  }

  /** The reference that last loaded the page at place `i`. */
  lemma LoadedAt(u: seq<nat>, m: nat, i: nat) returns (k: nat)
    requires 0 < m && i < |From([], u, m)|
    ensures |From([], u, m)| <= |LoadTimes(u, m)| && k == LoadTimes(u, m)[|LoadTimes(u, m)| - |From([], u, m)| + i]
    ensures LastLoad(u, m, From([], u, m)[i], k)
  {
    hide From, Loads, LoadTimes;
    ResidentsAreLastLoads(u, m);
    LoadsAtTimes(u, m, 0);
    var at := |LoadTimes(u, m)| - |From([], u, m)| + i;
    LoadsAtTimes(u, m, at);
    TimesMeaning(u, m);
    k := LoadTimes(u, m)[at];
    assert k in LoadTimes(u, m);
    forall j: nat | k < j < |u| && MissAt([], u, m, j)
      ensures u[j] != Loads(u, m)[at]
    {
      NotLoadedAgain(u, m, at, j);
    }
  }

  lemma LastLoadUnique(u: seq<nat>, m: nat, p: nat, a: nat, b: nat)
    requires 0 < m && LastLoad(u, m, p, a) && LastLoad(u, m, p, b)
    ensures a == b
  {
  }

  /** The list is ordered by the reference that last loaded each page. */
  lemma LoadOrder(u: seq<nat>, m: nat, i: nat, j: nat, a: nat, b: nat)
    requires 0 < m && i < j < |From([], u, m)|
    requires LastLoad(u, m, From([], u, m)[i], a) && LastLoad(u, m, From([], u, m)[j], b)
    ensures a < b
  {
    var a' := LoadedAt(u, m, i);
    var b' := LoadedAt(u, m, j);
    LastLoadUnique(u, m, From([], u, m)[i], a, a');
    LastLoadUnique(u, m, From([], u, m)[j], b, b');
    TimesMeaning(u, m);
  }
}

/** Least-recently-used replacement on page numbers.

    A state is the list of resident pages, most recently referenced first.
    LruList proves that the linked list of A3/lru.c computes this policy. */
module LruPolicy {
  import opened Sequences

  function Step(s: seq<nat>, p: nat, m: nat): seq<nat>
    requires 0 < m
  {
    if p in s then [p] + Remove(s, p)
    else if |s| < m then [p] + s
    else [p] + Take(s, m - 1)
  }

  lemma StepMiss(s: seq<nat>, p: nat, m: nat)
    requires 0 < m && p !in s
    ensures Step(s, p, m) == [p] + if |s| < m then s else s[..m - 1]
  {
  }

  /** The state after references `u` from state `s` with `m` frames. */
  function From(s: seq<nat>, u: seq<nat>, m: nat): seq<nat>
    requires 0 < m
  {
    if u == [] then s else Step(From(s, u[..|u| - 1], m), u[|u| - 1], m)
  }

  function Run(u: seq<nat>, m: nat): seq<nat>
    requires 0 < m
  {
    From([], u, m)
  }

  function Misses(u: seq<nat>, m: nat): nat
    requires 0 < m
  {
    if u == [] then 0
    else Misses(u[..|u| - 1], m) + if u[|u| - 1] in Run(u[..|u| - 1], m) then 0 else 1
  }

  ghost predicate Proper(s: seq<nat>, m: nat) {
    Distinct(s) && |s| <= m
  }

  lemma StepProper(s: seq<nat>, p: nat, m: nat)
    requires 0 < m && Proper(s, m)
    ensures Proper(Step(s, p, m), m)
  {
    RemoveFacts(s, p);
  }

  // ----- the stack property and inclusion

  /** All pages referenced, by last reference, latest first. */
  function Recency(u: seq<nat>): seq<nat> {
    if u == [] then []
    else [u[|u| - 1]] + Remove(Recency(u[..|u| - 1]), u[|u| - 1])
  }

  lemma {:induction false} RecencyDistinct(u: seq<nat>)
    ensures Distinct(Recency(u))
    ensures forall p :: p in Recency(u) <==> p in u
  {
    if u != [] {
      var t, p := u[..|u| - 1], u[|u| - 1];
      RecencyDistinct(t);
      RemoveFacts(Recency(t), p);
      assert u == t + [p];
    }
  }

  /** The position of the last reference to `p`. */
  function LastUse(u: seq<nat>, p: nat): (k: nat)
    requires p in u
    ensures k < |u| && u[k] == p && forall i | k < i < |u| :: u[i] != p
  {
    if u[|u| - 1] == p then |u| - 1
    else assert p in u[..|u| - 1]; LastUse(u[..|u| - 1], p)
  }

  ghost predicate ByLastUse(r: seq<nat>, u: seq<nat>) {
    && (forall i | 0 <= i < |r| :: r[i] in u)
    && forall i, j | 0 <= i < j < |r| :: LastUse(u, r[j]) < LastUse(u, r[i])
  }

  lemma LastUseAppend(t: seq<nat>, p: nat, q: nat)
    requires q in t || q == p
    ensures q in t + [p]
    ensures LastUse(t + [p], q) == if q == p then |t| else LastUse(t, q)
  {
    assert (t + [p])[..|t|] == t;
    if q in t {
      var i :| 0 <= i < |t| && t[i] == q;
      assert (t + [p])[i] == q;
    } else {
      assert (t + [p])[|t|] == q;
    }
  }

  lemma ByLastUseStep(r: seq<nat>, t: seq<nat>, p: nat)
    requires Distinct(r) && ByLastUse(r, t)
    ensures ByLastUse([p] + Remove(r, p), t + [p])
  {
    var rest := Remove(r, p);
    RemoveFacts(r, p);
    LastUseAppend(t, p, p);
    forall i | 0 <= i < |rest|
      ensures rest[i] in t && rest[i] in t + [p] && LastUse(t + [p], rest[i]) == LastUse(t, rest[i])
    {
      assert rest[i] in rest;
      LastUseAppend(t, p, rest[i]);
    }
    forall i, j | 0 <= i < j < |rest|
      ensures LastUse(t, rest[j]) < LastUse(t, rest[i])
    {
      var i', j' := RemoveOrder(r, p, i, j);
    }
  }

  /** Recency lists exactly the pages referenced, ordered by last reference. */
  lemma {:induction false} RecencyOrder(u: seq<nat>)
    ensures ByLastUse(Recency(u), u)
    ensures forall p :: p in Recency(u) <==> p in u
  {
    RecencyDistinct(u);
    if u != [] {
      var t, p := u[..|u| - 1], u[|u| - 1];
      RecencyOrder(t);
      RecencyDistinct(t);
      ByLastUseStep(Recency(t), t, p);
      assert u == t + [p];
    }
  }

  lemma TakeRemove(r: seq<nat>, p: nat, m: nat)
    requires Distinct(r) && 0 < m
    ensures Step(Take(r, m), p, m) == Take([p] + Remove(r, p), m)
  {
    if p !in r {
      RemoveAbsent(r, p);
    } else {
      var k :| 0 <= k < |r| && r[k] == p;
      RemoveAt(r, p, k);
      TakeRemoveAt(r, p, m, k);
    }
  }

  lemma StepHit(s: seq<nat>, m: nat, k: nat)
    requires 0 < m && Distinct(s) && k < |s|
    ensures Step(s, s[k], m) == [s[k]] + (s[..k] + s[k + 1..])
  {
    RemoveAt(s, s[k], k);
  }

  lemma TakeRemoveAt(r: seq<nat>, p: nat, m: nat, k: nat)
    requires Distinct(r) && 0 < m && k < |r| && r[k] == p
    ensures Step(Take(r, m), p, m) == Take([p] + (r[..k] + r[k + 1..]), m)
  {
    hide Step;
    var s, after := Take(r, m), [p] + (r[..k] + r[k + 1..]);
    if k < m {
      assert s[k] == p;
      StepHit(s, m, k);
      assert Take(after, m) == [p] + (s[..k] + s[k + 1..]);
    } else {
      assert s == r[..m];
      forall i | 0 <= i < m
        ensures r[i] != p
      {
      }
      StepMiss(s, p, m);
      assert Take(after, m) == [p] + s[..m - 1];
    }
  }

  /** With `m` frames the resident pages are the `m` most recently referenced. */
  lemma {:induction false} StackProperty(u: seq<nat>, m: nat)
    requires 0 < m
    ensures Run(u, m) == Take(Recency(u), m)
  {
    if u != [] {
      var t, p := u[..|u| - 1], u[|u| - 1];
      StackProperty(t, m);
      RecencyDistinct(t);
      TakeRemove(Recency(t), p, m);
    }
  }

  /** Inclusion: a page resident with `m` frames is resident with `m'` frames, `m <= m'`. */
  lemma Inclusion(u: seq<nat>, m: nat, m': nat)
    requires 0 < m <= m'
    ensures Run(u, m) <= Run(u, m')
    ensures forall p | p in Run(u, m) :: p in Run(u, m')
  {
    StackProperty(u, m);
    StackProperty(u, m');
  }

  /** More memory never costs a miss. */
  lemma {:induction false} MissesFall(u: seq<nat>, m: nat, m': nat)
    requires 0 < m <= m'
    ensures Misses(u, m') <= Misses(u, m)
  {
    if u != [] {
      MissesFall(u[..|u| - 1], m, m');
      Inclusion(u[..|u| - 1], m, m');
    }
  }

  // ----- a stretch over few pages

  /** Every page of the stretch referenced so far is resident, ahead of every other. */
  ghost predicate StretchAhead(s: seq<nat>, t: set<nat>) {
    && (forall p | p in t :: p in s)
    && forall i, j | 0 <= i < j < |s| && s[j] in t :: s[i] in t
  }

  lemma StretchStep(s: seq<nat>, p: nat, m: nat, t: set<nat>, d: set<nat>)
    requires 0 < m && Proper(s, m) && StretchAhead(s, t)
    requires t <= d && p in d && |d| <= m
    ensures StretchAhead(Step(s, p, m), t + {p})
  {
    if p in s {
      StretchHit(s, p, m, t);
    } else if |s| == m && s[m - 1] in t {
      StretchRoom(s, p, t, d);
      assert false;
    } else {
      StretchMiss(s, p, m, t);
    }
  }

  lemma StretchMiss(s: seq<nat>, p: nat, m: nat, t: set<nat>)
    requires 0 < m && Proper(s, m) && StretchAhead(s, t) && p !in s
    requires |s| == m ==> s[m - 1] !in t
    ensures StretchAhead(Step(s, p, m), t + {p})
  {
    var kept := if |s| < m then s else Take(s, m - 1);
    assert Step(s, p, m) == [p] + kept;
    forall q | q in t
      ensures q in [p] + kept
    {
      var k :| 0 <= k < |s| && s[k] == q;
      assert ([p] + kept)[k + 1] == q;
    }
  }

  lemma StretchHit(s: seq<nat>, p: nat, m: nat, t: set<nat>)
    requires 0 < m && Distinct(s) && StretchAhead(s, t) && p in s
    ensures StretchAhead(Step(s, p, m), t + {p})
  {
    RemoveFacts(s, p);
    var s' := Step(s, p, m);
    forall i, j | 0 <= i < j < |s'| && s'[j] in t + {p}
      ensures s'[i] in t + {p}
    {
      if i > 0 {
        assert s'[j] in Remove(s, p);
        var i', j' := RemoveOrder(s, p, i - 1, j - 1);
      }
    }
  }

  /** When the last resident page is one of the stretch, so are all of them. */
  lemma StretchRoom(s: seq<nat>, p: nat, t: set<nat>, d: set<nat>)
    requires Distinct(s) && StretchAhead(s, t) && p !in s
    requires t <= d && p in d
    requires s != [] && s[|s| - 1] in t
    ensures |s| < |d|
  {
    var all := [p] + s;
    forall i | 0 <= i < |all|
      ensures all[i] in d
    {
      assert i > 0 ==> s[i - 1] in t;
    }
    DistinctWithin(all, d);
  }

  lemma {:induction false} StretchKeeps(s: seq<nat>, u: seq<nat>, m: nat, d: set<nat>)
    requires 0 < m && Proper(s, m) && |d| <= m
    requires forall i | 0 <= i < |u| :: u[i] in d
    ensures Proper(From(s, u, m), m)
    ensures StretchAhead(From(s, u, m), ToSet(u))
  {
    if u != [] {
      var t, p := u[..|u| - 1], u[|u| - 1];
      assert u == t + [p];
      StretchKeeps(s, t, m, d);
      StepProper(From(s, t, m), p, m);
      StretchStep(From(s, t, m), p, m, ToSet(t), d);
      assert ToSet(u) == ToSet(t) + {p};
    }
  }

  /** Whether reference `i` of the stretch is a miss. */
  ghost predicate MissAt(s: seq<nat>, u: seq<nat>, m: nat, i: nat)
    requires 0 < m && i < |u|
  {
    u[i] !in From(s, u[..i], m)
  }

  /** In a stretch over at most `m` distinct pages, from any state, only the
      first reference to a page can miss. */
  lemma OnlyFirstMisses(s: seq<nat>, u: seq<nat>, m: nat, i: nat, j: nat)
    requires 0 < m && Proper(s, m) && |ToSet(u)| <= m
    requires i < j < |u| && u[i] == u[j]
    ensures !MissAt(s, u, m, j)
  {
    StretchKeeps(s, u[..j], m, ToSet(u));
    PrefixOfPrefix(u, i, j);
    assert u[j] in u[..j];
  }
}

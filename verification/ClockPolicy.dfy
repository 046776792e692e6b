/** Second-chance replacement on page numbers.

    A state lists the resident page and the reference bit of every frame in
    use, and the position of the hand.  ClockHand proves that the loop of
    A3/clock.c computes this policy. */
module ClockPolicy {
  import opened Sequences

  datatype State = State(pages: seq<nat>, refs: seq<bool>, hand: nat)

  /** The hand wraps when it is read, not when it is advanced. */
  function Wrap(hand: nat, m: nat): nat {
    if hand >= m then 0 else hand
  }

  function SetCount(refs: seq<bool>): nat {
    if refs == [] then 0 else (if refs[0] then 1 else 0) + SetCount(refs[1..])
  }

  lemma {:induction false} ClearCounts(refs: seq<bool>, k: nat)
    requires k < |refs| && refs[k]
    ensures SetCount(refs[k := false]) == SetCount(refs) - 1
  {
    if k > 0 {
      assert refs[k := false][1..] == refs[1..][k - 1 := false];
      ClearCounts(refs[1..], k - 1);
    }
  }

  /** The frame the hand stops at, and the reference bits it leaves. */
  function Sweep(refs: seq<bool>, hand: nat): (r: (nat, seq<bool>))
    requires refs != []
    ensures r.0 < |refs| == |r.1| && !r.1[r.0]
    decreases SetCount(refs)
  {
    var h := Wrap(hand, |refs|);
    if refs[h] then ClearCounts(refs, h); Sweep(refs[h := false], h + 1)
    else (h, refs)
  }

  function IndexOf(s: seq<nat>, p: nat): (k: nat)
    requires p in s
    ensures k < |s| && s[k] == p
  {
    if s[0] == p then 0 else 1 + IndexOf(s[1..], p)
  }

  function Step(s: State, p: nat, m: nat): State
    requires Proper(s, m)
  {
    if p in s.pages then s.(refs := s.refs[IndexOf(s.pages, p) := true])
    else if |s.pages| < m then State(s.pages + [p], s.refs + [true], s.hand)
    else
      var (v, refs) := Sweep(s.refs, s.hand);
      State(s.pages[v := p], refs[v := true], v + 1)
  }

  /** The hand has not moved while frames are free. */
  ghost predicate Proper(s: State, m: nat) {
    && 0 < m
    && Distinct(s.pages) && |s.pages| == |s.refs| <= m
    && s.hand <= m && (|s.pages| < m ==> s.hand == 0)
  }

  lemma StepProper(s: State, p: nat, m: nat)
    requires Proper(s, m)
    ensures Proper(Step(s, p, m), m)
    ensures p in Step(s, p, m).pages
  {
    var s' := Step(s, p, m);
    if p !in s.pages {
      if |s.pages| < m {
        assert s'.pages[|s.pages|] == p;
      } else {
        var v := Sweep(s.refs, s.hand).0;
        assert s'.pages[v] == p;
      }
    }
  }

  /** A reference sets the bit of its page; a hit does no more. */
  lemma StepMarks(s: State, p: nat, m: nat)
    requires Proper(s, m)
    ensures var s' := Step(s, p, m);
            && |s'.pages| == |s'.refs|
            && (exists f :: 0 <= f < |s'.pages| && s'.pages[f] == p && s'.refs[f])
            && (p in s.pages ==>
                  && s'.pages == s.pages && s'.hand == s.hand
                  && forall f | 0 <= f < |s.pages| :: s'.refs[f] == (s.refs[f] || s.pages[f] == p))
  {
    var s' := Step(s, p, m);
    var f := if p in s.pages then IndexOf(s.pages, p)
             else if |s.pages| < m then |s.pages| else Sweep(s.refs, s.hand).0;
    assert |s'.pages| == |s'.refs| && s'.pages[f] == p && s'.refs[f];
  }

  function From(s: State, u: seq<nat>, m: nat): (r: State)
    requires Proper(s, m)
    ensures Proper(r, m)
  {
    if u == [] then s
    else
      var t := From(s, u[..|u| - 1], m);
      StepProper(t, u[|u| - 1], m);
      Step(t, u[|u| - 1], m)
  }

  // ----- what one sweep does, without recursion

  /** How many frames the hand passes before it inspects `g`, starting at `h`. */
  function Offset(h: nat, g: nat, m: nat): (o: nat)
    requires h < m && g < m
    ensures o < m
  {
    if g >= h then g - h else g + m - h
  }

  /** The frame at distance `i` from `h`. */
  function Visited(h: nat, i: nat, m: nat): (g: nat)
    requires h < m && i <= m
    ensures g < m
    ensures i < m ==> Offset(h, g, m) == i
  {
    if h + i >= m then h + i - m else h + i
  }

  /** How many frames the sweep inspects. */
  function Visits(refs: seq<bool>, hand: nat): nat
    requires refs != []
    decreases SetCount(refs)
  {
    var h := Wrap(hand, |refs|);
    1 + if refs[h] then ClearCounts(refs, h); Visits(refs[h := false], h + 1) else 0
  }

  /** Inspecting one frame of a sweep. */
  lemma OneVisit(refs: seq<bool>, hand: nat)
    requires refs != []
    ensures var h := Wrap(hand, |refs|);
            if refs[h] then
              && SetCount(refs[h := false]) < SetCount(refs)
              && Sweep(refs, hand) == Sweep(refs[h := false], h + 1)
              && Visits(refs, hand) == 1 + Visits(refs[h := false], h + 1)
            else
              && Sweep(refs, hand) == (h, refs)
              && Visits(refs, hand) == 1
  {
    if refs[Wrap(hand, |refs|)] {
      ClearCounts(refs, Wrap(hand, |refs|));
    }
  }

  ghost predicate AllSet(refs: seq<bool>) {
    forall g | 0 <= g < |refs| :: refs[g]
  }

  /** `v` is the first frame from `h` with a clear bit, and the bits before it are cleared. */
  ghost predicate StopsAtFirstClear(refs: seq<bool>, h: nat, v: nat, refs': seq<bool>)
    requires h < |refs| && v < |refs|
  {
    && !refs[v]
    && (forall g | 0 <= g < |refs| && Offset(h, g, |refs|) < Offset(h, v, |refs|) :: refs[g])
    && |refs'| == |refs|
    && forall g | 0 <= g < |refs| :: refs'[g] == (refs[g] && Offset(h, v, |refs|) < Offset(h, g, |refs|))
  }

  /** The sweep from `h` with bits `refs` has passed `i` frames, all set, and `cur` is left. */
  ghost predicate SweptTo(refs: seq<bool>, h: nat, cur: seq<bool>, i: nat) {
    && h < |refs| == |cur| && i <= |refs|
    && (forall g | 0 <= g < |refs| :: cur[g] == (refs[g] && i <= Offset(h, g, |refs|)))
    && (forall g | 0 <= g < |refs| && Offset(h, g, |refs|) < i :: refs[g])
  }

  lemma PassOne(refs: seq<bool>, h: nat, cur: seq<bool>, i: nat)
    requires SweptTo(refs, h, cur, i) && i < |refs| && refs[Visited(h, i, |refs|)]
    ensures var g := Visited(h, i, |refs|);
            cur[g] && SweptTo(refs, h, cur[g := false], i + 1) && Wrap(g + 1, |refs|) == Visited(h, i + 1, |refs|)
  {
  }

  lemma StopHere(refs: seq<bool>, h: nat, cur: seq<bool>, i: nat)
    requires SweptTo(refs, h, cur, i) && i < |refs| && !refs[Visited(h, i, |refs|)]
    ensures var g := Visited(h, i, |refs|); !cur[g] && !AllSet(refs) && StopsAtFirstClear(refs, h, g, cur)
  {
  }

  lemma ComeRound(refs: seq<bool>, h: nat, cur: seq<bool>)
    requires SweptTo(refs, h, cur, |refs|)
    ensures AllSet(refs) && Visited(h, |refs|, |refs|) == h && forall g | 0 <= g < |refs| :: !cur[g]
  {
  }

  /** What a sweep from `h` with bits `refs` ends in. */
  ghost predicate SweepEnds(refs: seq<bool>, h: nat, v: nat, refs': seq<bool>, visits: int)
    requires h < |refs|
  {
    && v < |refs| == |refs'|
    && if AllSet(refs) then v == h && (forall g | 0 <= g < |refs| :: !refs'[g]) && visits == |refs| + 1
       else StopsAtFirstClear(refs, h, v, refs') && visits == Offset(h, v, |refs|) + 1
  }

  lemma {:induction false} SweepTail(refs: seq<bool>, h: nat, cur: seq<bool>, hand: nat, i: nat)
    requires SweptTo(refs, h, cur, i) && Wrap(hand, |refs|) == Visited(h, i, |refs|)
    ensures SweepEnds(refs, h, Sweep(cur, hand).0, Sweep(cur, hand).1, i + Visits(cur, hand))
    decreases |refs| - i
  {
    hide Sweep, Visits, Wrap, StopsAtFirstClear, AllSet;
    OneVisit(cur, hand);
    var g := Wrap(hand, |refs|);
    if i == |refs| {
      ComeRound(refs, h, cur);
    } else if refs[g] {
      PassOne(refs, h, cur, i);
      SweepTail(refs, h, cur[g := false], g + 1, i + 1);
    } else {
      StopHere(refs, h, cur, i);
    }
  }

  /** The hand stops at the first frame with a clear bit, having cleared the bits
      before it; if every bit was set it comes round to where it started, having
      cleared them all. */
  lemma SweepStops(refs: seq<bool>, hand: nat)
    requires refs != []
    ensures var (v, refs') := Sweep(refs, hand);
            var h := Wrap(hand, |refs|);
            if AllSet(refs) then v == h && (forall g | 0 <= g < |refs| :: !refs'[g]) && Visits(refs, hand) == |refs| + 1
            else StopsAtFirstClear(refs, h, v, refs') && Visits(refs, hand) == Offset(h, v, |refs|) + 1
    ensures Visits(refs, hand) <= |refs| + 1
  {
    SweepTail(refs, Wrap(hand, |refs|), refs, hand, 0);
  }

  lemma {:induction false} RunOn(s: State, u: seq<nat>, p: nat, m: nat, now: State)
    requires Proper(s, m) && Proper(now, m) && From(s, u, m) == now
    ensures From(s, u + [p], m) == Step(now, p, m)
  {
    hide Step, Proper, Sweep;
    var w := u + [p];
    assert w[..|w| - 1] == u && w[|w| - 1] == p;
  }

  lemma AllSweep()
    ensures Sweep([true, true, true], 0) == (0, [false, false, false])
  {
    SweepStops([true, true, true], 0);
    var r := Sweep([true, true, true], 0);
    assert r.1 == [false, false, false];
  }

  lemma OneSweep()
    ensures Sweep([true, true, false], 1) == (2, [true, false, false])
  {
    var refs := [true, true, false];
    SweepStops(refs, 1);
    var r := Sweep(refs, 1);
    assert !AllSet(refs) by { assert !refs[2]; }
    assert r.0 == 2 by { assert !refs[r.0]; }
    assert r.1 == [true, false, false];
  }

  lemma StepsFull()
    ensures Step(State([1, 2, 3], [true, true, true], 0), 4, 3) == State([4, 2, 3], [true, false, false], 1)
    ensures Step(State([4, 2, 3], [true, true, false], 1), 5, 3) == State([4, 2, 5], [true, false, true], 3)
  {
    AllSweep();
    OneSweep();
  }

  lemma StepsRoom()
    ensures Step(State([], [], 0), 1, 3) == State([1], [true], 0)
    ensures Step(State([1], [true], 0), 2, 3) == State([1, 2], [true, true], 0)
    ensures Step(State([1, 2], [true, true], 0), 3, 3) == State([1, 2, 3], [true, true, true], 0)
    ensures Step(State([4, 2, 3], [true, false, false], 1), 2, 3) == State([4, 2, 3], [true, true, false], 1)
  {
  }

  /** With three frames and pages 1 2 3 4 2 5, the reference to 2 saves it: 5 takes the
      frame of 3, which was loaded later. */
  lemma SecondChance()
    ensures From(State([], [], 0), [1] + [2] + [3] + [4] + [2] + [5], 3) == State([4, 2, 5], [true, false, true], 3)
  {
    hide Step, From;
    StepsRoom();
    StepsFull();
    var s := State([], [], 0);
    FromNothing(s);
    RunOn(s, [], 1, 3, s);
    RunOn(s, [1], 2, 3, State([1], [true], 0));
    RunOn(s, [1] + [2], 3, 3, State([1, 2], [true, true], 0));
    RunOn(s, [1] + [2] + [3], 4, 3, State([1, 2, 3], [true, true, true], 0));
    RunOn(s, [1] + [2] + [3] + [4], 2, 3, State([4, 2, 3], [true, false, false], 1));
    RunOn(s, [1] + [2] + [3] + [4] + [2], 5, 3, State([4, 2, 3], [true, true, false], 1));
  }

  lemma FromNothing(s: State)
    requires Proper(s, 3)
    ensures From(s, [], 3) == s && [] + [1] == [1]
  {
  }

  // ----- a stretch over few pages: the two-revolutions argument

  /** Whether the hand, now at `h`, has inspected `g` since it left `f`. */
  predicate Between(f: nat, h: nat, g: nat) {
    if f < h then f < g < h else g > f || g < h
  }

  /** The page in frame `g` was referenced in the stretch. */
  predicate Touched(pages: seq<nat>, t: set<nat>, g: nat)
    requires g < |pages|
  {
    pages[g] in t
  }

  /** What holds of a frame `f` loaded in the stretch while the hand is at `h`.
      On the first revolution `f` still has its bit, and the frames the hand has
      met since hold touched pages or have lost their bits.  On the second all
      frames are like that, and the frames met again hold touched pages. */
  ghost predicate Guarded(pages: seq<nat>, refs: seq<bool>, h: nat, t: set<nat>, f: nat)
    requires f < |pages| == |refs|
  {
    || (refs[f] && forall g | 0 <= g < |pages| && g != f && Between(f, h, g) :: Touched(pages, t, g) || !refs[g])
    || ((forall g | 0 <= g < |pages| :: Touched(pages, t, g) || !refs[g])
        && forall g | 0 <= g < |pages| && g != f && Between(f, h, g) :: Touched(pages, t, g))
  }

  /** The pages loaded in the stretch are touched, resident and guarded. */
  ghost predicate AllGuarded(s: State, m: nat, t: set<nat>, l: set<nat>)
    requires Proper(s, m)
  {
    && l <= t
    && (forall p | p in l :: p in s.pages)
    && forall f | 0 <= f < |s.pages| && s.pages[f] in l :: Guarded(s.pages, s.refs, Wrap(s.hand, m), t, f)
  }

  lemma VisitKeepsGuard(pages: seq<nat>, refs: seq<bool>, h: nat, t: set<nat>, f: nat)
    requires f < |pages| == |refs| && h < |refs| && refs[h]
    requires Touched(pages, t, f) && Guarded(pages, refs, h, t, f)
    ensures Guarded(pages, refs[h := false], Wrap(h + 1, |refs|), t, f)
  {
  }

  lemma {:induction false} SweepKeepsGuard(pages: seq<nat>, refs: seq<bool>, hand: nat, t: set<nat>, f: nat)
    requires f < |pages| == |refs|
    requires Touched(pages, t, f) && Guarded(pages, refs, Wrap(hand, |refs|), t, f)
    ensures var (v, refs') := Sweep(refs, hand); Guarded(pages, refs', v, t, f)
    decreases SetCount(refs)
  {
    var h := Wrap(hand, |refs|);
    if refs[h] {
      VisitKeepsGuard(pages, refs, h, t, f);
      ClearCounts(refs, h);
      SweepKeepsGuard(pages, refs[h := false], h + 1, t, f);
    }
  }

  /** A guarded frame with a clear bit under the hand means every frame is touched. */
  lemma VictimIsOld(pages: seq<nat>, refs: seq<bool>, v: nat, t: set<nat>, d: set<nat>, p: nat)
    requires v < |pages| == |refs| && Distinct(pages) && !refs[v] && p !in pages
    requires t <= d && p in d && |d| <= |pages| && Touched(pages, t, v)
    ensures !Guarded(pages, refs, v, t, v)
  {
    if Guarded(pages, refs, v, t, v) {
      var all := pages + [p];
      forall i | 0 <= i < |all|
        ensures all[i] in d
      {
        assert i < |pages| && i != v ==> Touched(pages, t, i);
      }
      DistinctWithin(all, d);
      assert false;
    }
  }

  lemma EvictKeepsGuards(s: State, p: nat, m: nat, t: set<nat>, l: set<nat>, d: set<nat>)
    requires Proper(s, m) && AllGuarded(s, m, t, l) && p !in s.pages && |s.pages| == m
    requires t <= d && p in d && |d| <= m
    ensures Proper(Step(s, p, m), m) && AllGuarded(Step(s, p, m), m, t + {p}, l + {p})
  {
    StepProper(s, p, m);
    var s' := Step(s, p, m);
    var (v, refs) := Sweep(s.refs, s.hand);
    forall f | 0 <= f < m && s.pages[f] in l
      ensures Guarded(s.pages, refs, v, t, f)
    {
      SweepKeepsGuard(s.pages, s.refs, s.hand, t, f);
    }
    if s.pages[v] in l {
      VictimIsOld(s.pages, refs, v, t, d, p);
      assert false;
    }
    forall q | q in l
      ensures q in s'.pages
    {
      var k :| 0 <= k < m && s.pages[k] == q;
      assert s'.pages[k] == q;
    }
    forall f | 0 <= f < m && s'.pages[f] in l + {p}
      ensures Guarded(s'.pages, s'.refs, Wrap(v + 1, m), t + {p}, f)
    {
      if f != v {
        LoadKeepsGuard(s.pages, refs, v, t, f, p);
      }
    }
  }

  lemma LoadKeepsGuard(pages: seq<nat>, refs: seq<bool>, v: nat, t: set<nat>, f: nat, p: nat)
    requires f < |pages| == |refs| && v < |refs| && !refs[v] && f != v
    requires Guarded(pages, refs, v, t, f)
    ensures Guarded(pages[v := p], refs[v := true], Wrap(v + 1, |refs|), t + {p}, f)
  {
    var pages' := pages[v := p];
    forall g | 0 <= g < |pages| && (g == v || Touched(pages, t, g))
      ensures Touched(pages', t + {p}, g)
    {
    }
  }

  lemma HitKeepsGuards(s: State, p: nat, m: nat, t: set<nat>, l: set<nat>)
    requires Proper(s, m) && AllGuarded(s, m, t, l) && p in s.pages
    ensures Proper(Step(s, p, m), m) && AllGuarded(Step(s, p, m), m, t + {p}, l)
  {
    StepProper(s, p, m);
    forall g | 0 <= g < |s.pages| && (s.pages[g] == p || Touched(s.pages, t, g))
      ensures Touched(s.pages, t + {p}, g)
    {
    }
  }

  lemma AppendKeepsGuards(s: State, p: nat, m: nat, t: set<nat>, l: set<nat>)
    requires Proper(s, m) && AllGuarded(s, m, t, l) && p !in s.pages && |s.pages| < m
    ensures Proper(Step(s, p, m), m) && AllGuarded(Step(s, p, m), m, t + {p}, l + {p})
  {
    StepProper(s, p, m);
    var s' := Step(s, p, m);
    forall f | 0 <= f < |s'.pages| && s'.pages[f] in l + {p}
      ensures Guarded(s'.pages, s'.refs, 0, t + {p}, f)
    {
      forall g | 0 <= g < |s.pages| && Touched(s.pages, t, g)
        ensures Touched(s'.pages, t + {p}, g)
      {
      }
      assert Touched(s'.pages, t + {p}, |s.pages|);
    }
  }

  /** The pages that miss somewhere in the stretch `u` from `s`. */
  ghost function Loaded(s: State, u: seq<nat>, m: nat): set<nat>
    requires Proper(s, m)
  {
    if u == [] then {}
    else
      var t, p := u[..|u| - 1], u[|u| - 1];
      Loaded(s, t, m) + if p in From(s, t, m).pages then {} else {p}
  }

  lemma {:induction false} StretchKeeps(s: State, u: seq<nat>, m: nat, d: set<nat>)
    requires Proper(s, m) && |d| <= m
    requires forall i | 0 <= i < |u| :: u[i] in d
    ensures AllGuarded(From(s, u, m), m, ToSet(u), Loaded(s, u, m))
  {
    if u != [] {
      var t, p := u[..|u| - 1], u[|u| - 1];
      assert u == t + [p];
      assert ToSet(u) == ToSet(t) + {p};
      StretchKeeps(s, t, m, d);
      var r := From(s, t, m);
      if p in r.pages {
        HitKeepsGuards(r, p, m, ToSet(t), Loaded(s, t, m));
      } else if |r.pages| < m {
        AppendKeepsGuards(r, p, m, ToSet(t), Loaded(s, t, m));
      } else {
        EvictKeepsGuards(r, p, m, ToSet(t), Loaded(s, t, m), d);
      }
    }
  }

  /** Whether reference `i` of the stretch is a miss. */
  ghost predicate MissAt(s: State, u: seq<nat>, m: nat, i: nat)
    requires Proper(s, m) && i < |u|
  {
    u[i] !in From(s, u[..i], m).pages
  }

  lemma MissAtPrefix(s: State, u: seq<nat>, m: nat, i: nat, j: nat)
    requires Proper(s, m) && i < j <= |u|
    ensures MissAt(s, u[..j], m, i) == MissAt(s, u, m, i)
  {
    PrefixOfPrefix(u, i, j);
  }

  lemma {:induction false} MissIsLoaded(s: State, u: seq<nat>, m: nat, i: nat)
    requires Proper(s, m) && i < |u| && MissAt(s, u, m, i)
    ensures u[i] in Loaded(s, u, m)
  {
    if i < |u| - 1 {
      MissAtPrefix(s, u, m, i, |u| - 1);
      MissIsLoaded(s, u[..|u| - 1], m, i);
    }
  }

  lemma LoadedStays(s: State, u: seq<nat>, m: nat, d: set<nat>, p: nat)
    requires Proper(s, m) && |d| <= m && ToSet(u) <= d
    requires p in Loaded(s, u, m)
    ensures p in From(s, u, m).pages
  {
    assert forall i | 0 <= i < |u| :: u[i] in ToSet(u);
    StretchKeeps(s, u, m, d);
  }

  /** In a stretch over at most `m` distinct pages, from any state, no page misses twice. */
  lemma NoSecondMiss(s: State, u: seq<nat>, m: nat, i: nat, j: nat)
    requires Proper(s, m) && |ToSet(u)| <= m
    requires i < j < |u| && u[i] == u[j] && MissAt(s, u, m, i)
    ensures !MissAt(s, u, m, j)
  {
    MissAtPrefix(s, u, m, i, j);
    MissIsLoaded(s, u[..j], m, i);
    LoadedStays(s, u[..j], m, ToSet(u), u[j]);
  }
}

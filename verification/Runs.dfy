/** Whole runs of a replacement policy, and what they have to do with the page table. */
module Runs {
  import opened Sequences
  import opened PageTable
  import opened FlatMemory
  import opened Paging
  import opened Residents
  import opened PolicySteps
  import opened Ties
  import opened Serving
  import opened Options
  import Losses
  import LruPolicy
  import FifoPolicy
  import ClockPolicy
  import L = LossyMemory

  /** The page numbers of a trace. */
  function Pages(trace: seq<Ref>): (u: seq<nat>)
    ensures |u| == |trace| && forall i | 0 <= i < |trace| :: u[i] == PageOf(trace[i])
  {
    seq(|trace|, i requires 0 <= i < |trace| => PageOf(trace[i]))
  }

  const START := ClockPolicy.State([], [], 0)

  /** The pages resident after references `u`, with `m` frames, under a policy
      that makes no random choice. */
  function InMemory(alg: Algorithm, u: seq<nat>, m: nat): seq<nat>
    requires 0 < m
  {
    match alg
    case Rand => []
    case Lru => LruPolicy.Run(u, m)
    case Fifo => FifoPolicy.From([], u, m)
    case Clock => ClockPolicy.From(START, u, m).pages
  }

  predicate HitAt(alg: Algorithm, u: seq<nat>, m: nat, i: nat)
    requires 0 < m && i < |u|
  {
    u[i] in InMemory(alg, u[..i], m)
  }

  function Misses(alg: Algorithm, u: seq<nat>, m: nat): nat
    requires 0 < m
  {
    if u == [] then 0
    else Misses(alg, u[..|u| - 1], m) + if HitAt(alg, u, m, |u| - 1) then 0 else 1
  }

  /** Under LRU more memory never means more misses. */
  lemma LruMissesFall(u: seq<nat>, m: nat, m': nat)
    requires 0 < m <= m'
    ensures Misses(Lru, u, m') <= Misses(Lru, u, m)
  {
    LruMisses(u, m);
    LruMisses(u, m');
    LruPolicy.MissesFall(u, m, m');
  }

  lemma {:induction false} LruMisses(u: seq<nat>, m: nat)
    requires 0 < m
    ensures Misses(Lru, u, m) == LruPolicy.Misses(u, m)
  {
    if u != [] {
      LruMisses(u[..|u| - 1], m);
    }
  }

  // ----- a stretch of a run

  lemma {:induction false} LruFromProper(u: seq<nat>, m: nat)
    requires 0 < m
    ensures LruPolicy.Proper(LruPolicy.Run(u, m), m)
  {
    if u != [] {
      LruFromProper(u[..|u| - 1], m);
      LruPolicy.StepProper(LruPolicy.Run(u[..|u| - 1], m), u[|u| - 1], m);
    }
  }

  lemma {:induction false} FifoFromProper(u: seq<nat>, m: nat)
    requires 0 < m
    ensures FifoPolicy.Proper(FifoPolicy.From([], u, m), m)
  {
    if u != [] {
      FifoFromProper(u[..|u| - 1], m);
      FifoPolicy.StepProper(FifoPolicy.From([], u[..|u| - 1], m), u[|u| - 1], m);
    }
  }

  lemma Shorten(u: seq<nat>, w: seq<nat>)
    requires w != []
    ensures (u + w)[..|u + w| - 1] == u + w[..|w| - 1]
    ensures (u + w)[|u + w| - 1] == w[|w| - 1]
  {
  }

  // Running `u` and then `w` is running them in one go.

  lemma {:induction false} LruTwice(u: seq<nat>, w: seq<nat>, m: nat)
    requires 0 < m
    ensures LruPolicy.From(LruPolicy.Run(u, m), w, m) == LruPolicy.Run(u + w, m)
  {
    if w == [] {
      assert u + w == u;
    } else {
      LruTwice(u, w[..|w| - 1], m);
      Shorten(u, w);
    }
  }

  lemma {:induction false} FifoTwice(u: seq<nat>, w: seq<nat>, m: nat)
    requires 0 < m
    ensures FifoPolicy.From(FifoPolicy.From([], u, m), w, m) == FifoPolicy.From([], u + w, m)
  {
    if w == [] {
      assert u + w == u;
    } else {
      FifoTwice(u, w[..|w| - 1], m);
      Shorten(u, w);
    }
  }

  lemma {:induction false} ClockTwice(u: seq<nat>, w: seq<nat>, m: nat)
    requires 0 < m
    ensures ClockPolicy.From(ClockPolicy.From(START, u, m), w, m) == ClockPolicy.From(START, u + w, m)
  {
    if w == [] {
      assert u + w == u;
    } else {
      ClockTwice(u, w[..|w| - 1], m);
      Shorten(u, w);
    }
  }

  lemma StretchParts(u: seq<nat>, a: nat, b: nat, i: nat)
    requires a <= i < b <= |u|
    ensures u[a..b][i - a] == u[i] && u[..a] + u[a..b][..i - a] == u[..i]
  {
    assert u[a..b][..i - a] == u[a..i];
  }

  /** References `a` to `b` of the run touch at most `m` different pages, and `i`
      and `j` among them are to the same page. */
  ghost predicate InStretch(u: seq<nat>, m: nat, a: nat, b: nat, i: nat, j: nat) {
    0 < m && a <= i < j < b <= |u| && |ToSet(u[a..b])| <= m && u[i] == u[j]
  }

  lemma StretchIndices(u: seq<nat>, m: nat, a: nat, b: nat, i: nat, j: nat)
    requires InStretch(u, m, a, b, i, j)
    ensures i - a < j - a < |u[a..b]| && u[a..b][i - a] == u[a..b][j - a] && |ToSet(u[a..b])| <= m
  {
  }

  lemma {:induction false} LruStretch(u: seq<nat>, m: nat, a: nat, b: nat, i: nat, j: nat)
    requires InStretch(u, m, a, b, i, j)
    ensures HitAt(Lru, u, m, j)
  {
    StretchParts(u, a, b, i);
    StretchParts(u, a, b, j);
    LruTwice(u[..a], u[a..b][..j - a], m);
    LruFromProper(u[..a], m);
    LruPolicy.OnlyFirstMisses(LruPolicy.Run(u[..a], m), u[a..b], m, i - a, j - a);
  }

  lemma FifoHitIn(u: seq<nat>, m: nat, a: nat, b: nat, i: nat)
    requires 0 < m && a <= i < b <= |u|
    ensures FifoPolicy.MissAt(FifoPolicy.From([], u[..a], m), u[a..b], m, i - a) == !HitAt(Fifo, u, m, i)
  {
    StretchParts(u, a, b, i);
    FifoTwice(u[..a], u[a..b][..i - a], m);
  }

  /** The state before the stretch, from which the stretch hits as the run does. */
  lemma {:induction false} FifoBefore(u: seq<nat>, m: nat, a: nat, b: nat, i: nat, j: nat, hitI: bool, hitJ: bool)
    returns (s: seq<nat>, w: seq<nat>)
    requires InStretch(u, m, a, b, i, j) && hitI == HitAt(Fifo, u, m, i) && hitJ == HitAt(Fifo, u, m, j)
    ensures FifoPolicy.Proper(s, m) && |ToSet(w)| <= m && i - a < j - a < |w| && w[i - a] == w[j - a]
    ensures FifoPolicy.MissAt(s, w, m, i - a) == !hitI && FifoPolicy.MissAt(s, w, m, j - a) == !hitJ
  {
    s, w := FifoPolicy.From([], u[..a], m), u[a..b];
    StretchIndices(u, m, a, b, i, j);
    FifoFromProper(u[..a], m);
    FifoHitIn(u, m, a, b, i);
    FifoHitIn(u, m, a, b, j);
  }

  lemma {:induction false} FifoStretch(u: seq<nat>, m: nat, a: nat, b: nat, i: nat, j: nat)
    requires InStretch(u, m, a, b, i, j) && !HitAt(Fifo, u, m, i)
    ensures HitAt(Fifo, u, m, j)
  {
    var hitJ := HitAt(Fifo, u, m, j);
    var s, w := FifoBefore(u, m, a, b, i, j, false, hitJ);
    FifoPolicy.NoSecondMiss(s, w, m, i - a, j - a);
  }

  lemma ClockHitIn(u: seq<nat>, m: nat, a: nat, b: nat, i: nat)
    requires 0 < m && a <= i < b <= |u|
    ensures ClockPolicy.MissAt(ClockPolicy.From(START, u[..a], m), u[a..b], m, i - a) == !HitAt(Clock, u, m, i)
  {
    StretchParts(u, a, b, i);
    ClockTwice(u[..a], u[a..b][..i - a], m);
  }

  lemma {:induction false} ClockStretch(u: seq<nat>, m: nat, a: nat, b: nat, i: nat, j: nat)
    requires InStretch(u, m, a, b, i, j) && !HitAt(Clock, u, m, i)
    ensures HitAt(Clock, u, m, j)
  {
    hide ClockPolicy.From;
    var w, s := u[a..b], ClockPolicy.From(START, u[..a], m);
    StretchIndices(u, m, a, b, i, j);
    ClockHitIn(u, m, a, b, i);
    ClockHitIn(u, m, a, b, j);
    ClockStretchFrom(s, w, m, i - a, j - a, HitAt(Clock, u, m, i), HitAt(Clock, u, m, j));
  }

  lemma {:induction false} ClockStretchFrom(s: ClockPolicy.State, w: seq<nat>, m: nat, i: nat, j: nat, hitI: bool,
                                            hitJ: bool)
    requires ClockPolicy.Proper(s, m) && |ToSet(w)| <= m && i < j < |w| && w[i] == w[j]
    requires ClockPolicy.MissAt(s, w, m, i) == !hitI && ClockPolicy.MissAt(s, w, m, j) == !hitJ && !hitI
    ensures hitJ
  {
    ClockPolicy.NoSecondMiss(s, w, m, i, j);
  }

  /** A page that misses in a stretch of the run touching at most `m` different
      pages does not miss again in that stretch. */
  lemma NoSecondMiss(alg: Algorithm, u: seq<nat>, m: nat, a: nat, b: nat, i: nat, j: nat)
    requires InStretch(u, m, a, b, i, j) && !alg.Rand? && !HitAt(alg, u, m, i)
    ensures HitAt(alg, u, m, j)
  {
    match alg {
      case Lru => LruStretch(u, m, a, b, i, j);
      case Fifo => FifoStretch(u, m, a, b, i, j);
      case Clock => ClockStretch(u, m, a, b, i, j);
    }
  }

  // ----- the pager runs the policy

  /** The policy of the pager is where references `u` take it. */
  ghost predicate Ran(alg: Algorithm, u: seq<nat>, m: Snap, n: nat, v: View) {
    && Sound(alg, m, n, v)
    && match alg
       case Rand => true
       case Lru => PagesOf(m.cm, v.lru) == LruPolicy.Run(u, |m.cm|)
       case Fifo => PagesOf(m.cm, v.fifo) == FifoPolicy.From([], u, |m.cm|)
       case Clock => ClockOf(m.cm, m.dir, n, v.hand) == ClockPolicy.From(START, u, |m.cm|)
  }

  lemma RanStart(alg: Algorithm, m: Snap, v: View)
    requires Sound(alg, m, 0, v)
    ensures Ran(alg, [], m, 0, v)
  {
  }

  lemma RanStep(alg: Algorithm, u: seq<nat>, m: Snap, n: nat, v: View, m': Snap, n': nat, v': View, q: nat)
    requires Ran(alg, u, m, n, v) && Follows(alg, m, n, v, m', n', v', q)
    ensures Ran(alg, u + [q], m', n', v')
  {
    assert Follows(alg, m, n, v, m', n', v', q);
    Shorten(u, [q]);
    assert u + [q][..0] == u;
  }

  lemma FramedIsListed(cm: seq<Frame>, order: seq<nat>, n: nat, f: nat)
    requires Orders(order, n) && n <= |cm| && f < n
    ensures cm[f].pte in PagesOf(cm, order)
  {
    OrdersAll(order, n, f);
    var k :| 0 <= k < |order| && order[k] == f;
    assert PagesOf(cm, order)[k] == cm[f].pte;
  }

  /** The policy's list is the pages in the frames in use. */
  lemma RanFrames(alg: Algorithm, u: seq<nat>, m: Snap, n: nat, v: View, q: nat)
    requires Ran(alg, u, m, n, v) && !alg.Rand?
    ensures WellShaped(m) && n <= |m.cm|
    ensures q in InMemory(alg, u, |m.cm|) <==> exists f :: 0 <= f < n && m.cm[f].pte == q
  {
    if f :| 0 <= f < n && m.cm[f].pte == q {
      match alg {
        case Lru => FramedIsListed(m.cm, v.lru, n, f);
        case Fifo => FramedIsListed(m.cm, v.fifo, n, f);
        case Clock => assert ClockOf(m.cm, m.dir, n, v.hand).pages[f] == q;
      }
    }
    if q in InMemory(alg, u, |m.cm|) {
      match alg {
        case Lru => var k :| 0 <= k < |v.lru| && PagesOf(m.cm, v.lru)[k] == q; assert m.cm[v.lru[k]].pte == q;
        case Fifo => var k :| 0 <= k < |v.fifo| && PagesOf(m.cm, v.fifo)[k] == q; assert m.cm[v.fifo[k]].pte == q;
        case Clock => var k :| 0 <= k < n && ClockOf(m.cm, m.dir, n, v.hand).pages[k] == q; assert m.cm[k].pte == q;
      }
    }
  }

  /** The pages resident in the pager are those the policy has. */
  lemma RanResident(alg: Algorithm, u: seq<nat>, w: Whole)
    requires Sane(alg, w) && Ran(alg, u, w.m, w.n, w.v) && !alg.Rand?
    ensures 0 < |w.m.cm| && w.mem.resident == ToSet(InMemory(alg, u, |w.m.cm|))
  {
    forall q
      ensures q in w.mem.resident <==> q in InMemory(alg, u, |w.m.cm|)
    {
      RanFrames(alg, u, w.m, w.n, w.v, q);
      FramedIsResident(w.m, w.n, w.mem, q);
    }
  }

  // ----- a whole replay

  /** The memory of the pager always has the pages resident that the policy has. */
  ghost predicate Agrees(alg: Algorithm, trace: seq<Ref>, victims: seq<Option<nat>>, m: nat, slots: nat)
    requires 0 < m && |victims| == |trace|
  {
    forall i | 0 <= i <= |trace| ::
      L.Run(trace[..i], victims[..i], slots).resident == ToSet(InMemory(alg, Pages(trace)[..i], m))
  }

  /** What holds after the pager replayed `trace`: `log` says what each reference showed
      and `victims` which page was evicted for it. */
  ghost predicate Replayed(alg: Algorithm, trace: seq<Ref>, w: Whole, log: seq<Seen>, victims: seq<Option<nat>>,
                           counts: L.Counts)
  {
    && WellShaped(w.m) && |victims| == |trace|
    && w.mem == L.Run(trace, victims, w.m.slots)
    && log == L.Log(trace, victims, w.m.slots)
    && counts == L.Counted(trace, victims, w.m.slots)
    && L.Played(trace, victims, |w.m.cm|, w.m.slots)
    && Ran(alg, Pages(trace), w.m, w.n, w.v)
    && (!alg.Rand? ==> Agrees(alg, trace, victims, |w.m.cm|, w.m.slots))
  }

  /** With no frame in use nothing has been touched. */
  lemma ReplayStart(alg: Algorithm, w: Whole)
    requires Sane(alg, w) && w.n == 0 && w.mem == L.EMPTY
    ensures Replayed(alg, [], w, [], [], L.Counts(0, 0, 0, 0, 0))
  {
    RanStart(alg, w.m, w.v);
    if !alg.Rand? {
      RanResident(alg, [], w);
    }
  }

  lemma PagesAppend(t: seq<Ref>, r: Ref)
    ensures Pages(t + [r]) == Pages(t) + [PageOf(r)]
  {
  }

  lemma Prefixes<T>(s: seq<T>, x: T, i: nat)
    requires i <= |s|
    ensures (s + [x])[..i] == s[..i] && (s + [x])[..|s|] == s && (s + [x])[..|s| + 1] == s + [x]
  {
  }

  lemma MemoryStep(t: seq<Ref>, r: Ref, victims: seq<Option<nat>>, victim: Option<nat>, slots: nat)
    requires |victims| == |t|
    ensures var s := L.Run(t, victims, slots);
            && L.Run(t + [r], victims + [victim], slots) == L.Step(s, r, victim, slots)
            && L.Log(t + [r], victims + [victim], slots) == L.Log(t, victims, slots) + [L.See(s, r, victim, slots)]
            && L.Counted(t + [r], victims + [victim], slots)
            == L.Tick(L.Counted(t, victims, slots), PageOf(r) in s.resident, L.WasDirty(s, victim))
  {
    Prefixes(t, r, 0);
    Prefixes(victims, victim, 0);
  }

  lemma PlayedStep(t: seq<Ref>, r: Ref, victims: seq<Option<nat>>, victim: Option<nat>, m: nat, slots: nat)
    requires L.Played(t, victims, m, slots) && L.Fits(L.Run(t, victims, slots), r, victim, m)
    ensures L.Played(t + [r], victims + [victim], m, slots)
  {
    forall i | 0 <= i <= |t|
      ensures L.Fits(L.Run((t + [r])[..i], (victims + [victim])[..i], slots), (t + [r])[i], (victims + [victim])[i], m)
    {
      Prefixes(t, r, i);
      Prefixes(victims, victim, i);
      assert t[..|t|] == t && victims[..|t|] == victims;
    }
  }

  lemma AgreesStep(alg: Algorithm, t: seq<Ref>, r: Ref, victims: seq<Option<nat>>, victim: Option<nat>, m: nat,
                   slots: nat)
    requires 0 < m && |victims| == |t| && Agrees(alg, t, victims, m, slots)
    requires L.Run(t + [r], victims + [victim], slots).resident == ToSet(InMemory(alg, Pages(t + [r]), m))
    ensures Agrees(alg, t + [r], victims + [victim], m, slots)
  {
    PagesAppend(t, r);
    forall i | 0 <= i <= |t| + 1
      ensures L.Run((t + [r])[..i], (victims + [victim])[..i], slots).resident
           == ToSet(InMemory(alg, Pages(t + [r])[..i], m))
    {
      if i <= |t| {
        Prefixes(t, r, i);
        Prefixes(victims, victim, i);
        Prefixes(Pages(t), PageOf(r), i);
      } else {
        Prefixes(t, r, 0);
        Prefixes(victims, victim, 0);
        Prefixes(Pages(t), PageOf(r), 0);
      }
    }
  }

  lemma StepRan(alg: Algorithm, t: seq<Ref>, r: Ref, w: Whole, w': Whole)
    requires Ran(alg, Pages(t), w.m, w.n, w.v)
    requires Follows(alg, w.m, w.n, w.v, w'.m, w'.n, w'.v, PageOf(r))
    ensures Ran(alg, Pages(t + [r]), w'.m, w'.n, w'.v) && |w'.m.cm| == |w.m.cm|
  {
    PagesAppend(t, r);
    RanStep(alg, Pages(t), w.m, w.n, w.v, w'.m, w'.n, w'.v, PageOf(r));
    FollowsSound(alg, w.m, w.n, w.v, w'.m, w'.n, w'.v, PageOf(r));
  }

  /** One more reference. */
  lemma ReplayStep(alg: Algorithm, t: seq<Ref>, r: Ref, w: Whole, log: seq<Seen>, victims: seq<Option<nat>>,
                   counts: L.Counts, w': Whole, seen: Seen, victim: Option<nat>)
    requires Sane(alg, w') && Replayed(alg, t, w, log, victims, counts)
    requires Accessed(alg, w, r, w', seen, victim)
    ensures Replayed(alg, t + [r], w', log + [seen], victims + [victim],
                     L.Tick(counts, PageOf(r) in w.mem.resident, L.WasDirty(w.mem, victim)))
  {
    StepRan(alg, t, r, w, w');
    MemoryStep(t, r, victims, victim, w.m.slots);
    PlayedStep(t, r, victims, victim, |w.m.cm|, w.m.slots);
    if !alg.Rand? {
      RanResident(alg, Pages(t + [r]), w');
      AgreesStep(alg, t, r, victims, victim, |w.m.cm|, w.m.slots);
    }
    assert WellShaped(w'.m);
  }

  lemma ReplayNext(alg: Algorithm, trace: seq<Ref>, i: nat, w: Whole, log: seq<Seen>, victims: seq<Option<nat>>,
                   counts: L.Counts, w': Whole, seen: Seen, victim: Option<nat>)
    requires i < |trace| && Sane(alg, w') && Replayed(alg, trace[..i], w, log, victims, counts)
    requires Accessed(alg, w, trace[i], w', seen, victim)
    ensures Replayed(alg, trace[..i + 1], w', log + [seen], victims + [victim],
                     L.Tick(counts, PageOf(trace[i]) in w.mem.resident, L.WasDirty(w.mem, victim)))
  {
    TakeNext(trace, i);
    ReplayStep(alg, trace[..i], trace[i], w, log, victims, counts, w', seen, victim);
  }

  lemma OnePage(trace: seq<Ref>, i: nat, p: nat)
    requires i < |trace| && |FlatMemory.Touched(trace)| <= 1 && p in FlatMemory.Touched(trace[..i])
    ensures PageOf(trace[i]) == p
  {
    var k :| 0 <= k < i && PageOf(trace[..i][k]) == p;
    assert PageOf(trace[k]) == p;
    SubsetSize({p, PageOf(trace[i])}, FlatMemory.Touched(trace));
  }

  lemma ResidentTouched(alg: Algorithm, t: seq<Ref>, w: Whole, log: seq<Seen>, victims: seq<Option<nat>>,
                        counts: L.Counts)
    requires Sane(alg, w) && Replayed(alg, t, w, log, victims, counts)
    ensures |w.mem.resident| == w.n && w.mem.resident <= FlatMemory.Touched(t)
  {
    ResidentSize(w.m, w.n, w.mem);
    Losses.CellsAreTouched(t, victims, w.m.slots);
  }

  /** With a single page in the trace, it is the one resident if any is. */
  lemma OnePageServed(alg: Algorithm, trace: seq<Ref>, i: nat, w: Whole, log: seq<Seen>, victims: seq<Option<nat>>,
                      counts: L.Counts)
    requires i < |trace| && |FlatMemory.Touched(trace)| <= 1
    requires Sane(alg, w) && Replayed(alg, trace[..i], w, log, victims, counts)
    ensures w.n == 0 || PageOf(trace[i]) in w.mem.resident
  {
    ResidentTouched(alg, trace[..i], w, log, victims, counts);
    if w.n > 0 {
      var p :| p in w.mem.resident;
      OnePage(trace, i, p);
    }
  }

  lemma OnePageBefore(trace: seq<Ref>, i: nat)
    requires i <= |trace| && forall j | 0 <= j < i :: PageOf(trace[j]) == PageOf(trace[0])
    ensures |FlatMemory.Touched(trace[..i])| <= 1
    ensures i == |trace| ==> |FlatMemory.Touched(trace)| <= 1
  {
    if i > 0 {
      SubsetSize(FlatMemory.Touched(trace[..i]), {PageOf(trace[0])});
    }
    assert trace[..|trace|] == trace;
  }

  lemma LastIsResident(t: seq<Ref>, victims: seq<Option<nat>>, slots: nat)
    requires |victims| == |t| && t != []
    ensures PageOf(t[|t| - 1]) in L.Run(t, victims, slots).resident
  {
  }

  lemma Residence(alg: Algorithm, t: seq<Ref>, w: Whole, log: seq<Seen>, victims: seq<Option<nat>>, counts: L.Counts)
    requires Sane(alg, w) && Replayed(alg, t, w, log, victims, counts) && t != []
    ensures |w.mem.resident| == w.n && w.mem.resident <= FlatMemory.Touched(t)
    ensures PageOf(t[|t| - 1]) in w.mem.resident
  {
    ResidentTouched(alg, t, w, log, victims, counts);
    LastIsResident(t, victims, w.m.slots);
  }

  lemma OnlyPage(resident: set<nat>, touched: set<nat>, p: nat)
    requires resident <= touched && p in resident && |touched| <= 1
    ensures resident == {p} && |resident| == 1
  {
    if q :| q in resident && q != p {
      SubsetSize({p, q}, touched);
    }
  }

  /** The first reference to a second page finds only the first page resident. */
  lemma SecondPage(alg: Algorithm, trace: seq<Ref>, i: nat, w: Whole, log: seq<Seen>, victims: seq<Option<nat>>,
                   counts: L.Counts)
    requires 0 < i < |trace| && forall j | 0 <= j < i :: PageOf(trace[j]) == PageOf(trace[0])
    requires Sane(alg, w) && Replayed(alg, trace[..i], w, log, victims, counts)
    ensures w.n == 1 && w.mem.resident == {PageOf(trace[0])}
  {
    hide Sane, Replayed;
    OnePageBefore(trace, i);
    Residence(alg, trace[..i], w, log, victims, counts);
    assert trace[..i][i - 1] == trace[i - 1];
    OnlyPage(w.mem.resident, FlatMemory.Touched(trace[..i]), PageOf(trace[0]));
  }

  // ----- hits and victims are the policy's

  /** The page that was in memory and is not any more. */
  function Dropped(before: seq<nat>, after: seq<nat>): Option<nat> {
    if before == [] then None
    else if before[0] !in after then Some(before[0])
    else Dropped(before[1..], after)
  }

  lemma {:induction false} DroppedIs(before: seq<nat>, after: seq<nat>, victim: Option<nat>)
    requires forall p | p in before :: p !in after <==> victim == Some(p)
    requires victim.Some? ==> victim.value in before
    ensures Dropped(before, after) == victim
  {
    if before != [] && before[0] in after {
      DroppedIs(before[1..], after, victim);
    }
  }

  /** The page the policy evicts for each of the references `u`. */
  function Victims(alg: Algorithm, u: seq<nat>, m: nat): (r: seq<Option<nat>>)
    requires 0 < m
    ensures |r| == |u|
    ensures forall i | 0 <= i < |u| :: r[i] == Dropped(InMemory(alg, u[..i], m), InMemory(alg, u[..i + 1], m))
  {
    seq(|u|, i requires 0 <= i < |u| => Dropped(InMemory(alg, u[..i], m), InMemory(alg, u[..i + 1], m)))
  }

  lemma RunAt(trace: seq<Ref>, victims: seq<Option<nat>>, slots: nat, i: nat)
    requires |victims| == |trace| && i < |trace|
    ensures L.Run(trace[..i + 1], victims[..i + 1], slots)
         == L.Step(L.Run(trace[..i], victims[..i], slots), trace[i], victims[i], slots)
  {
    assert trace[..i + 1][..i] == trace[..i] && victims[..i + 1][..i] == victims[..i];
  }

  /** The page evicted for a reference is in memory before it and not after. */
  lemma VictimLeaves(s: L.Mem, r: Ref, victim: Option<nat>, m: nat, before: set<nat>, after: set<nat>, p: nat)
    requires L.Fits(s, r, victim, m) && s.resident == before && L.Residents(s.resident, PageOf(r), victim) == after
    ensures victim == Some(p) <==> p in before && p !in after
  {
  }

  lemma VictimIsDropped(s: L.Mem, r: Ref, victim: Option<nat>, m: nat, before: seq<nat>, after: seq<nat>)
    requires L.Fits(s, r, victim, m)
    requires s.resident == ToSet(before) && L.Residents(s.resident, PageOf(r), victim) == ToSet(after)
    ensures victim == Dropped(before, after)
    ensures forall p :: victim == Some(p) <==> p in before && p !in after
  {
    forall p: nat
      ensures victim == Some(p) <==> p in before && p !in after
    {
      VictimLeaves(s, r, victim, m, ToSet(before), ToSet(after), p);
    }
    DroppedIs(before, after, victim);
  }

  lemma VictimAt(alg: Algorithm, trace: seq<Ref>, victims: seq<Option<nat>>, m: nat, slots: nat, i: nat)
    requires 0 < m && L.Played(trace, victims, m, slots) && Agrees(alg, trace, victims, m, slots) && i < |trace|
    ensures var before, after := InMemory(alg, Pages(trace)[..i], m), InMemory(alg, Pages(trace)[..i + 1], m);
            && victims[i] == Dropped(before, after)
            && forall p :: victims[i] == Some(p) <==> p in before && p !in after
  {
    var s := L.Run(trace[..i], victims[..i], slots);
    RunAt(trace, victims, slots, i);
    assert L.Run(trace[..i + 1], victims[..i + 1], slots).resident == ToSet(InMemory(alg, Pages(trace)[..i + 1], m));
    VictimIsDropped(s, trace[i], victims[i], m, InMemory(alg, Pages(trace)[..i], m),
                    InMemory(alg, Pages(trace)[..i + 1], m));
  }

  /** The pages evicted are the ones the policy evicts. */
  lemma AgreedVictims(alg: Algorithm, trace: seq<Ref>, victims: seq<Option<nat>>, m: nat, slots: nat)
    requires 0 < m && L.Played(trace, victims, m, slots) && Agrees(alg, trace, victims, m, slots)
    ensures victims == Victims(alg, Pages(trace), m)
  {
    forall i: nat | i < |trace|
      ensures victims[i] == Victims(alg, Pages(trace), m)[i]
    {
      VictimAt(alg, trace, victims, m, slots, i);
    }
  }

  lemma AgreesPrefix(alg: Algorithm, trace: seq<Ref>, victims: seq<Option<nat>>, m: nat, slots: nat)
    requires 0 < m && |victims| == |trace| && trace != [] && Agrees(alg, trace, victims, m, slots)
    ensures var k := |trace| - 1;
            Agrees(alg, trace[..k], victims[..k], m, slots) && Pages(trace[..k]) == Pages(trace)[..k]
  {
    var k := |trace| - 1;
    forall i | 0 <= i <= k
      ensures L.Run(trace[..k][..i], victims[..k][..i], slots).resident
           == ToSet(InMemory(alg, Pages(trace[..k])[..i], m))
    {
      assert trace[..k][..i] == trace[..i] && victims[..k][..i] == victims[..i];
      assert Pages(trace[..k])[..i] == Pages(trace)[..i];
    }
  }

  /** The hits and misses counted are the ones of the policy. */
  lemma {:induction false} AgreedMisses(alg: Algorithm, trace: seq<Ref>, victims: seq<Option<nat>>, m: nat, slots: nat)
    requires 0 < m && |victims| == |trace| && Agrees(alg, trace, victims, m, slots)
    ensures L.Counted(trace, victims, slots).misses == Misses(alg, Pages(trace), m)
    ensures L.Counted(trace, victims, slots).hits == |trace| - Misses(alg, Pages(trace), m)
  {
    if trace != [] {
      var k := |trace| - 1;
      AgreesPrefix(alg, trace, victims, m, slots);
      AgreedMisses(alg, trace[..k], victims[..k], m, slots);
      assert L.Run(trace[..k], victims[..k], slots).resident == ToSet(InMemory(alg, Pages(trace)[..k], m));
    }
  }

  /** A page has been evicted exactly when at some reference the policy had it before
      and not after. */
  lemma EvictedMeaning(alg: Algorithm, trace: seq<Ref>, victims: seq<Option<nat>>, m: nat, slots: nat, q: nat)
    requires 0 < m && L.Played(trace, victims, m, slots) && Agrees(alg, trace, victims, m, slots)
    ensures var u := Pages(trace);
            Some(q) in victims <==>
              exists i: nat :: i < |u| && q in InMemory(alg, u[..i], m) && q !in InMemory(alg, u[..i + 1], m)
  {
    forall i: nat | i < |trace|
      ensures var u := Pages(trace);
              victims[i] == Some(q) <==> q in InMemory(alg, u[..i], m) && q !in InMemory(alg, u[..i + 1], m)
    {
      VictimAt(alg, trace, victims, m, slots, i);
    }
    if Some(q) in victims {
      var i: nat :| i < |victims| && victims[i] == Some(q);
      assert q !in InMemory(alg, Pages(trace)[..i + 1], m);
    }
  }

  // ----- what a replay comes to

  /** Every address check passes exactly when each page is always referenced by one
      address and no page is referenced after it was lost; and in the first case the
      program sees flat memory exactly in the second.  As many pages are lost as more
      pages were evicted than there are slots. */
  lemma ReplayedMemory(alg: Algorithm, trace: seq<Ref>, w: Whole, log: seq<Seen>, victims: seq<Option<nat>>,
                       counts: L.Counts)
    requires Replayed(alg, trace, w, log, victims, counts)
    ensures Losses.Unharmed(trace, victims, w.m.slots) ==> log == Log(trace)
    ensures Losses.OneAddress(trace) ==> (log == Log(trace) <==> Losses.Unharmed(trace, victims, w.m.slots))
    ensures Losses.AllMatch(log) <==> Losses.OneAddress(trace) && Losses.Unharmed(trace, victims, w.m.slots)
    ensures var evicted := |Losses.EvictedPages(victims)|;
            |Losses.Lost(w.mem, w.m.slots)| == if evicted <= w.m.slots then 0 else evicted - w.m.slots
    ensures |FlatMemory.Touched(trace)| <= w.m.slots ==> log == Log(trace)
  {
    var slots, m := w.m.slots, |w.m.cm|;
    if Losses.Unharmed(trace, victims, slots) {
      Losses.UnharmedIsFlat(trace, victims, slots);
    }
    if Losses.OneAddress(trace) {
      Losses.FlatExactly(trace, victims, m, slots);
    }
    Losses.ChecksPass(trace, victims, m, slots);
    Losses.HowManyLost(trace, victims, m, slots);
    if |FlatMemory.Touched(trace)| <= slots {
      Losses.FewPages(trace, victims, m, slots);
      Losses.EnoughSlots(trace, victims, m, slots);
    }
  }

  /** Victims, hits and misses are those of the policy on page numbers, and the counters
      add up. */
  lemma ReplayedCounts(alg: Algorithm, trace: seq<Ref>, w: Whole, log: seq<Seen>, victims: seq<Option<nat>>,
                       counts: L.Counts)
    requires Replayed(alg, trace, w, log, victims, counts)
    ensures 0 < |w.m.cm|
    ensures !alg.Rand? ==> victims == Victims(alg, Pages(trace), |w.m.cm|)
    ensures !alg.Rand? ==> counts.misses == Misses(alg, Pages(trace), |w.m.cm|)
    ensures counts.hits + counts.misses == counts.refs == |trace|
    ensures counts.misses == |w.mem.resident| + counts.clean + counts.dirty
    ensures counts.dirty == |Losses.DirtyEvictions(trace, victims)|
    ensures counts.clean == |Losses.CleanEvictions(trace, victims)|
  {
    var slots, m := w.m.slots, |w.m.cm|;
    Losses.Balance(trace, victims, m, slots);
    Losses.EvictionCounts(trace, victims, m, slots);
    if !alg.Rand? {
      AgreedVictims(alg, trace, victims, m, slots);
      AgreedMisses(alg, trace, victims, m, slots);
    }
  }
}

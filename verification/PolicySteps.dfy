/** One access, seen by the replacement policy.

    `Follows` says that an access from one state of the pager to another took
    the policy on pages one step (LruPolicy, FifoPolicy, ClockPolicy). */
module PolicySteps {
  import opened Sequences
  import opened PageTable
  import opened Paging
  import opened Residents
  import ClockHand
  import FlatMemory
  import LruPolicy
  import FifoPolicy
  import ClockPolicy

  /** The rows of the `algs` table (A3/sim.c:21-27), without opt. */
  datatype Algorithm = Rand | Lru | Fifo | Clock

  /** What the policies remember: two frame orders and the clock's hand. */
  datatype View = View(lru: seq<nat>, fifo: seq<nat>, hand: nat)

  /** The state of the policy in use lists exactly the first `n` of `m` frames. */
  ghost predicate ViewOk(alg: Algorithm, v: View, n: nat, m: nat) {
    match alg
    case Rand => true
    case Lru => Orders(v.lru, n)
    case Fifo => Orders(v.fifo, n)
    case Clock => v.hand <= m && (n < m ==> v.hand == 0)
  }

  /** Choosing `f` as the victim took the policy from `v` to `v'`. */
  ghost predicate Chosen(alg: Algorithm, v: View, v': View, f: nat) {
    match alg
    case Rand => true
    case Lru => v.lru != [] && f == v.lru[|v.lru| - 1] && v'.lru == v.lru[..|v.lru| - 1]
    case Fifo => v.fifo != [] && f == v.fifo[0] && v'.fifo == v.fifo[1..]
    case Clock => v'.hand == f + 1
  }

  /** Reporting a reference to frame `f` took the policy from `v` to `v'`. */
  ghost predicate Referenced(alg: Algorithm, v: View, v': View, f: nat) {
    match alg
    case Rand => true
    case Lru => v'.lru == [f] + Remove(v.lru, f)
    case Fifo => v'.fifo == if f in v.fifo then v.fifo else v.fifo + [f]
    case Clock => v'.hand == v.hand
  }

  ghost predicate Sound(alg: Algorithm, m: Snap, n: nat, v: View) {
    WellShaped(m) && n <= |m.cm| && Paged(m.cm, n) && ViewOk(alg, v, n, |m.cm|)
  }

  ghost predicate Follows(alg: Algorithm, m: Snap, n: nat, v: View, m': Snap, n': nat, v': View, q: nat) {
    && Sound(alg, m, n, v) && Sound(alg, m', n', v') && |m'.cm| == |m.cm|
    && match alg
       case Rand => true
       case Lru => PagesOf(m'.cm, v'.lru) == LruPolicy.Step(PagesOf(m.cm, v.lru), q, |m.cm|)
       case Fifo => PagesOf(m'.cm, v'.fifo) == FifoPolicy.Step(PagesOf(m.cm, v.fifo), q, |m.cm|)
       case Clock =>
         && ClockPolicy.Proper(ClockOf(m.cm, m.dir, n, v.hand), |m.cm|)
         && ClockOf(m'.cm, m'.dir, n', v'.hand) == ClockPolicy.Step(ClockOf(m.cm, m.dir, n, v.hand), q, |m.cm|)
  }

  /** The first `n` frames hold different pages. */
  lemma InvPaged(m: Snap, n: nat, flat: FlatMemory.Flat)
    requires Inv(m, n, NONE, flat)
    ensures Paged(m.cm, n)
  {
    forall f | 0 <= f < n
      ensures m.cm[f].pte < PAGES && Entry(m.dir, m.cm[f].pte).num == f
    {
      assert FrameOk(m, n, NONE, f);
    }
  }

  /** A page that is not valid is in no frame. */
  lemma InvAbsent(m: Snap, n: nat, flat: FlatMemory.Flat, q: nat)
    requires Inv(m, n, NONE, flat) && q < PAGES && !Entry(m.dir, q).valid
    ensures forall f | 0 <= f < n :: m.cm[f].pte != q
  {
    forall f | 0 <= f < n
      ensures m.cm[f].pte != q
    {
      assert FrameOk(m, n, NONE, f);
    }
  }

  lemma ClockProper(m: Snap, n: nat, hand: nat)
    requires WellShaped(m) && Paged(m.cm, n) && hand <= |m.cm| && (n < |m.cm| ==> hand == 0)
    ensures ClockPolicy.Proper(ClockOf(m.cm, m.dir, n, hand), |m.cm|)
  {
  }

  /** A hit on the page of frame `f`, whose reference bit it sets. */
  lemma HitFollows(alg: Algorithm, m: Snap, n: nat, v: View, m': Snap, v': View, f: nat)
    requires Sound(alg, m, n, v) && f < n && WellShaped(m') && Loads(m.cm, m'.cm, f, m.cm[f].pte)
    requires Entry(m'.dir, m.cm[f].pte).ref
    requires forall g | 0 <= g < n && g != f :: Entry(m'.dir, m.cm[g].pte) == Entry(m.dir, m.cm[g].pte)
    requires Referenced(alg, v, v', f)
    ensures Follows(alg, m, n, v, m', n, v', m.cm[f].pte)
  {
    match alg {
      case Rand =>
      case Lru => LruHit(m.cm, m'.cm, v.lru, n, f, |m.cm|);
      case Fifo => FifoHit(m.cm, m'.cm, v.fifo, n, f, |m.cm|);
      case Clock =>
        ClockProper(m, n, v.hand);
        ClockHit(m.cm, m'.cm, m.dir, m'.dir, n, v.hand, f, |m.cm|);
    }
  }

  /** A miss that takes the free frame `n`. */
  lemma AppendFollows(alg: Algorithm, m: Snap, n: nat, v: View, m': Snap, v': View, q: nat)
    requires Sound(alg, m, n, v) && n < |m.cm| && q < PAGES && WellShaped(m') && Loads(m.cm, m'.cm, n, q)
    requires forall g | 0 <= g < n :: m.cm[g].pte != q
    requires Entry(m'.dir, q).ref
    requires forall g | 0 <= g < n :: Entry(m'.dir, m.cm[g].pte) == Entry(m.dir, m.cm[g].pte)
    requires Referenced(alg, v, v', n)
    ensures Follows(alg, m, n, v, m', n + 1, v', q)
  {
    match alg {
      case Rand =>
      case Lru => LruLoad(m.cm, m'.cm, v.lru, n, n, q, |m.cm|);
      case Fifo => FifoLoad(m.cm, m'.cm, v.fifo, n, n, q, |m.cm|);
      case Clock =>
        ClockProper(m, n, v.hand);
        ClockAppend(m.cm, m'.cm, m.dir, m'.dir, n, v.hand, q, |m.cm|);
    }
  }

  lemma LoadsPaged(cm: seq<Frame>, cm': seq<Frame>, n: nat, f: nat, q: nat)
    requires Paged(cm, n) && f < n && Loads(cm, cm', f, q) && q < PAGES
    requires forall g | 0 <= g < n :: cm[g].pte != q
    ensures Paged(cm', n)
  {
  }

  lemma ClockEvictFollows(m: Snap, hand: nat, swept: Directory, m': Snap, f: nat, q: nat)
    requires WellShaped(m) && Paged(m.cm, |m.cm|) && hand <= |m.cm|
    requires f < |m.cm| && q < PAGES && WellShaped(m') && Loads(m.cm, m'.cm, f, q) && Paged(m'.cm, |m.cm|)
    requires forall g | 0 <= g < |m.cm| :: m.cm[g].pte != q
    requires Entry(m'.dir, q).ref && Shaped(swept)
    requires forall g | 0 <= g < |m.cm| && g != f :: Entry(m'.dir, m.cm[g].pte) == Entry(swept, m.cm[g].pte)
    requires ClockHand.Swept(m.cm, m.dir, hand, f, swept)
    ensures var s := ClockOf(m.cm, m.dir, |m.cm|, hand);
            ClockPolicy.Proper(s, |m.cm|) && ClockOf(m'.cm, m'.dir, |m.cm|, f + 1) == ClockPolicy.Step(s, q, |m.cm|)
  {
    ClockProper(m, |m.cm|, hand);
    assert ClockOf(m.cm, m.dir, |m.cm|, hand).refs == ClockHand.RefBits(m.cm, m.dir);
    assert ClockOf(m.cm, swept, |m.cm|, hand).refs == ClockHand.RefBits(m.cm, swept);
    ClockEvict(m.cm, m'.cm, m.dir, swept, m'.dir, hand, f, q, |m.cm|);
  }

  /** A miss that takes the frame of a victim. */
  lemma EvictFollows(alg: Algorithm, m: Snap, v: View, swept: Directory, v1: View, m': Snap, v': View, f: nat, q: nat)
    requires Sound(alg, m, |m.cm|, v) && f < |m.cm| && q < PAGES && WellShaped(m') && Loads(m.cm, m'.cm, f, q)
    requires forall g | 0 <= g < |m.cm| :: m.cm[g].pte != q
    requires Chosen(alg, v, v1, f) && Referenced(alg, v1, v', f)
    requires Entry(m'.dir, q).ref && Shaped(swept)
    requires forall g | 0 <= g < |m.cm| && g != f :: Entry(m'.dir, m.cm[g].pte) == Entry(swept, m.cm[g].pte)
    requires alg.Clock? ==> ClockHand.Swept(m.cm, m.dir, v.hand, f, swept)
    ensures Follows(alg, m, |m.cm|, v, m', |m.cm|, v', q)
  {
    LoadsPaged(m.cm, m'.cm, |m.cm|, f, q);
    match alg {
      case Rand =>
      case Lru => LruLoad(m.cm, m'.cm, v.lru, |m.cm|, f, q, |m.cm|);
      case Fifo => FifoLoad(m.cm, m'.cm, v.fifo, |m.cm|, f, q, |m.cm|);
      case Clock => ClockEvictFollows(m, v.hand, swept, m', f, q);
    }
  }
}

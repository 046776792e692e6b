/** Which pages are resident, in the order each policy keeps them.

    These lemmas carry a policy's step on frames over to its step on pages. */
module Residents {
  import opened Sequences
  import opened PageTable
  import LruPolicy
  import FifoPolicy
  import ClockPolicy

  /** The pages in the frames of `order`. */
  ghost function PagesOf(cm: seq<Frame>, order: seq<nat>): (s: seq<nat>)
    requires forall i | 0 <= i < |order| :: order[i] < |cm|
    ensures |s| == |order| && forall i | 0 <= i < |order| :: s[i] == cm[order[i]].pte
  {
    seq(|order|, i requires 0 <= i < |order| => cm[order[i]].pte)
  }

  /** The first `n` frames hold different pages. */
  ghost predicate OnePageEach(cm: seq<Frame>, n: nat)
    requires n <= |cm|
  {
    forall f, g | 0 <= f < g < n :: cm[f].pte != cm[g].pte
  }

  /** `order` lists the first `n` frames, each once. */
  ghost predicate Orders(order: seq<nat>, n: nat) {
    Distinct(order) && |order| == n && forall i | 0 <= i < |order| :: order[i] < n
  }

  /** A list of `n` of the first `n` frames lists them all. */
  lemma OrdersAll(order: seq<nat>, n: nat, f: nat)
    requires Orders(order, n) && f < n
    ensures f in order
  {
    if f !in order {
      BelowSize(n, f);
      DistinctWithin(order, Below(n) - {f});
    }
  }

  ghost function Below(n: nat): (s: set<nat>)
    ensures forall g: nat :: g in s <==> g < n
  {
    if n == 0 then {} else Below(n - 1) + {n - 1}
  }

  lemma {:induction false} BelowCount(n: nat)
    ensures |Below(n)| == n
  {
    if n > 0 {
      BelowCount(n - 1);
    }
  }

  lemma BelowSize(n: nat, f: nat)
    requires f < n
    ensures |Below(n) - {f}| == n - 1
  {
    BelowCount(n);
  }

  lemma PagesDistinct(cm: seq<Frame>, order: seq<nat>, n: nat)
    requires n <= |cm| && OnePageEach(cm, n) && Distinct(order)
    requires forall i | 0 <= i < |order| :: order[i] < n
    ensures Distinct(PagesOf(cm, order))
  {
    forall i, j | 0 <= i < j < |order|
      ensures cm[order[i]].pte != cm[order[j]].pte
    {
      assert order[i] != order[j];
    }
  }

  /** `cm'` holds page `q` in frame `f` and is `cm` elsewhere. */
  ghost predicate Loads(cm: seq<Frame>, cm': seq<Frame>, f: nat, q: nat) {
    && f < |cm'| == |cm| && cm'[f].pte == q
    && forall g | 0 <= g < |cm| && g != f :: cm'[g].pte == cm[g].pte
  }

  // ----- least recently used

  lemma LruHitOrders(order: seq<nat>, n: nat, f: nat)
    requires Orders(order, n) && f < n
    ensures Orders([f] + Remove(order, f), n)
  {
    OrdersAll(order, n, f);
    RemoveFacts(order, f);
    var rest := Remove(order, f);
    forall i | 0 <= i < |rest|
      ensures rest[i] < n && rest[i] != f
    {
      assert rest[i] in rest;
      assert forall i | 0 <= i < |order| :: order[i] < n;
    }
  }

  ghost predicate InRange(order: seq<nat>, n: nat) {
    forall i | 0 <= i < |order| :: order[i] < n
  }

  /** Pages of a list whose first frame was just loaded. */
  lemma PagesCons(cm: seq<Frame>, cm': seq<Frame>, f: nat, q: nat, rest: seq<nat>)
    requires Loads(cm, cm', f, q) && f !in rest && InRange(rest, |cm|)
    ensures PagesOf(cm', [f] + rest) == [q] + PagesOf(cm, rest)
  {
    var order := [f] + rest;
    forall i | 0 <= i < |order|
      ensures order[i] < |cm| && cm'[order[i]].pte == ([q] + PagesOf(cm, rest))[i]
    {
      if i > 0 {
        assert order[i] == rest[i - 1] && rest[i - 1] in rest;
      }
    }
  }

  /** Pages of a list whose last frame was just loaded. */
  lemma PagesSnoc(cm: seq<Frame>, cm': seq<Frame>, f: nat, q: nat, rest: seq<nat>)
    requires Loads(cm, cm', f, q) && f !in rest && InRange(rest, |cm|)
    ensures PagesOf(cm', rest + [f]) == PagesOf(cm, rest) + [q]
  {
    var order := rest + [f];
    forall i | 0 <= i < |order|
      ensures order[i] < |cm| && cm'[order[i]].pte == (PagesOf(cm, rest) + [q])[i]
    {
      if i < |rest| {
        assert order[i] == rest[i] && rest[i] in rest;
      }
    }
  }

  lemma PagesTake(cm: seq<Frame>, order: seq<nat>, k: nat)
    requires InRange(order, |cm|) && k <= |order|
    ensures PagesOf(cm, order[..k]) == PagesOf(cm, order)[..k]
    ensures PagesOf(cm, order[k..]) == PagesOf(cm, order)[k..]
  {
  }

  lemma PagesConcat(cm: seq<Frame>, a: seq<nat>, b: seq<nat>)
    requires InRange(a, |cm|) && InRange(b, |cm|)
    ensures InRange(a + b, |cm|)
    ensures PagesOf(cm, a + b) == PagesOf(cm, a) + PagesOf(cm, b)
  {
  }

  lemma WithoutAt(order: seq<nat>, n: nat, k: nat)
    requires Orders(order, n) && k < n
    ensures order[k] !in order[..k] + order[k + 1..] && InRange(order[..k], n) && InRange(order[k + 1..], n)
    ensures InRange(order[..k] + order[k + 1..], n)
  {
    var rest := order[..k] + order[k + 1..];
    forall i | 0 <= i < |rest|
      ensures rest[i] != order[k] && rest[i] < n
    {
      assert rest[i] == order[if i < k then i else i + 1];
    }
  }

  lemma LruHitPages(cm: seq<Frame>, cm': seq<Frame>, order: seq<nat>, n: nat, f: nat, k: nat)
    requires n <= |cm| && OnePageEach(cm, n) && Orders(order, n) && k < n && order[k] == f
    requires Loads(cm, cm', f, cm[f].pte)
    ensures var rest := order[..k] + order[k + 1..];
            && InRange([f] + rest, |cm|)
            && PagesOf(cm', [f] + rest) == [cm[f].pte] + Remove(PagesOf(cm, order), cm[f].pte)
  {
    var rest, pages := order[..k] + order[k + 1..], PagesOf(cm, order);
    WithoutAt(order, n, k);
    PagesCons(cm, cm', f, cm[f].pte, rest);
    assert PagesOf(cm, rest) == pages[..k] + pages[k + 1..] by {
      PagesTake(cm, order, k);
      PagesTake(cm, order, k + 1);
      PagesConcat(cm, order[..k], order[k + 1..]);
    }
    assert Remove(pages, cm[f].pte) == pages[..k] + pages[k + 1..] by {
      PagesDistinct(cm, order, n);
      RemoveAt(pages, cm[f].pte, k);
    }
  }

  lemma LruHit(cm: seq<Frame>, cm': seq<Frame>, order: seq<nat>, n: nat, f: nat, m: nat)
    requires n <= |cm| && OnePageEach(cm, n) && Orders(order, n) && f < n && 0 < m
    requires Loads(cm, cm', f, cm[f].pte)
    ensures Orders([f] + Remove(order, f), n)
    ensures PagesOf(cm', [f] + Remove(order, f)) == LruPolicy.Step(PagesOf(cm, order), cm[f].pte, m)
  {
    OrdersAll(order, n, f);
    var k :| 0 <= k < |order| && order[k] == f;
    LruHitOrders(order, n, f);
    RemoveAt(order, f, k);
    LruHitPages(cm, cm', order, n, f, k);
    assert PagesOf(cm, order)[k] == cm[f].pte;
  }

  /** The order after a load: the frame goes first. */
  lemma LoadFirst(kept: seq<nat>, f: nat, bound: nat)
    requires Distinct(kept) && f !in kept && InRange(kept, bound) && f < bound && |kept| + 1 == bound
    ensures Orders([f] + kept, bound)
  {
    var all := [f] + kept;
    forall i, j | 0 <= i < j < |all|
      ensures all[i] != all[j]
    {
      assert all[j] == kept[j - 1] && kept[j - 1] in kept;
      assert i > 0 ==> all[i] == kept[i - 1];
    }
  }

  /** What is left of an order without its last frame. */
  lemma KeptFront(order: seq<nat>, n: nat)
    requires Orders(order, n) && 0 < n
    ensures Distinct(order[..n - 1]) && order[n - 1] !in order[..n - 1] && InRange(order[..n - 1], n)
  {
    var rest := order[..n - 1];
    assert forall k | 0 <= k < |rest| :: rest[k] == order[k] != order[n - 1];
  }

  lemma LruLoad(cm: seq<Frame>, cm': seq<Frame>, order: seq<nat>, n: nat, f: nat, q: nat, m: nat)
    requires n <= m == |cm| && 0 < m && Orders(order, n) && Loads(cm, cm', f, q)
    requires q !in PagesOf(cm, order)
    requires if n < m then f == n else f == order[n - 1]
    ensures var kept := if n < m then order else order[..n - 1];
            && Remove(kept, f) == kept
            && Orders([f] + kept, if n < m then n + 1 else n)
            && PagesOf(cm', [f] + kept) == LruPolicy.Step(PagesOf(cm, order), q, m)
  {
    var kept := if n < m then order else order[..n - 1];
    if n == m {
      KeptFront(order, n);
    }
    LoadFirst(kept, f, if n < m then n + 1 else n);
    PagesCons(cm, cm', f, q, kept);
    PagesTake(cm, order, |kept|);
    RemoveAbsent(kept, f);
    LruPolicy.StepMiss(PagesOf(cm, order), q, m);
  }

  // ----- first in, first out

  lemma FifoHit(cm: seq<Frame>, cm': seq<Frame>, order: seq<nat>, n: nat, f: nat, m: nat)
    requires n <= |cm| && Orders(order, n) && f < n && 0 < m
    requires Loads(cm, cm', f, cm[f].pte)
    ensures f in order && PagesOf(cm', order) == FifoPolicy.Step(PagesOf(cm, order), cm[f].pte, m)
  {
    OrdersAll(order, n, f);
    var k :| 0 <= k < |order| && order[k] == f;
    assert PagesOf(cm, order)[k] == cm[f].pte;
  }

  lemma LoadLast(kept: seq<nat>, f: nat, bound: nat)
    requires Distinct(kept) && f !in kept && InRange(kept, bound) && f < bound && |kept| + 1 == bound
    ensures Orders(kept + [f], bound)
  {
    var all := kept + [f];
    forall i, j | 0 <= i < j < |all|
      ensures all[i] != all[j]
    {
      assert all[i] == kept[i] && kept[i] in kept;
      assert j < |kept| ==> all[j] == kept[j];
    }
  }

  /** What is left of an order without its first frame. */
  lemma KeptBack(order: seq<nat>, n: nat)
    requires Orders(order, n) && 0 < n
    ensures Distinct(order[1..]) && order[0] !in order[1..] && InRange(order[1..], n)
  {
    var rest := order[1..];
    assert forall k | 0 <= k < |rest| :: rest[k] == order[k + 1] != order[0];
  }

  lemma FifoLoad(cm: seq<Frame>, cm': seq<Frame>, order: seq<nat>, n: nat, f: nat, q: nat, m: nat)
    requires n <= m == |cm| && 0 < m && Orders(order, n) && Loads(cm, cm', f, q)
    requires q !in PagesOf(cm, order)
    requires if n < m then f == n else f == order[0]
    ensures var kept := if n < m then order else order[1..];
            && f !in kept
            && Orders(kept + [f], if n < m then n + 1 else n)
            && PagesOf(cm', kept + [f]) == FifoPolicy.Step(PagesOf(cm, order), q, m)
  {
    var kept := if n < m then order else order[1..];
    if n == m {
      KeptBack(order, n);
    }
    LoadLast(kept, f, if n < m then n + 1 else n);
    PagesSnoc(cm, cm', f, q, kept);
    PagesTake(cm, order, |order| - |kept|);
    assert order[0..] == order;
  }

  // ----- clock

  ghost function ClockOf(cm: seq<Frame>, dir: Directory, n: nat, hand: nat): (s: ClockPolicy.State)
    requires Shaped(dir) && n <= |cm| && forall i | 0 <= i < n :: cm[i].pte < PAGES
    ensures |s.pages| == |s.refs| == n && s.hand == hand
    ensures forall i | 0 <= i < n :: s.pages[i] == cm[i].pte && s.refs[i] == Entry(dir, cm[i].pte).ref
  {
    ClockPolicy.State(seq(n, i requires 0 <= i < n => cm[i].pte),
                      seq(n, i requires 0 <= i < n => Entry(dir, cm[i].pte).ref), hand)
  }

  ghost predicate Paged(cm: seq<Frame>, n: nat) {
    n <= |cm| && (forall i | 0 <= i < n :: cm[i].pte < PAGES) && OnePageEach(cm, n)
  }

  lemma ClockHit(cm: seq<Frame>, cm': seq<Frame>, dir: Directory, dir': Directory, n: nat, hand: nat, f: nat, m: nat)
    requires Shaped(dir) && Shaped(dir') && Paged(cm, n) && f < n && Loads(cm, cm', f, cm[f].pte)
    requires ClockPolicy.Proper(ClockOf(cm, dir, n, hand), m)
    requires Entry(dir', cm[f].pte).ref
    requires forall g | 0 <= g < n && g != f :: Entry(dir', cm[g].pte).ref == Entry(dir, cm[g].pte).ref
    ensures ClockOf(cm', dir', n, hand) == ClockPolicy.Step(ClockOf(cm, dir, n, hand), cm[f].pte, m)
  {
    var s := ClockOf(cm, dir, n, hand);
    assert s.pages[f] == cm[f].pte;
    var k := ClockPolicy.IndexOf(s.pages, cm[f].pte);
    assert s.pages[k] == s.pages[f];
    assert ClockOf(cm', dir', n, hand).pages == s.pages;
    assert ClockOf(cm', dir', n, hand).refs == s.refs[f := true];
  }

  lemma ClockAppend(cm: seq<Frame>, cm': seq<Frame>, dir: Directory, dir': Directory, n: nat, hand: nat, q: nat, m: nat)
    requires Shaped(dir) && Shaped(dir') && Paged(cm, n) && n < m == |cm| && q < PAGES && Loads(cm, cm', n, q)
    requires ClockPolicy.Proper(ClockOf(cm, dir, n, hand), m) && q !in ClockOf(cm, dir, n, hand).pages
    requires Entry(dir', q).ref
    requires forall g | 0 <= g < n :: Entry(dir', cm[g].pte).ref == Entry(dir, cm[g].pte).ref
    ensures ClockOf(cm', dir', n + 1, hand) == ClockPolicy.Step(ClockOf(cm, dir, n, hand), q, m)
  {
    var s, s' := ClockOf(cm, dir, n, hand), ClockOf(cm', dir', n + 1, hand);
    assert s'.pages == s.pages + [q];
    assert s'.refs == s.refs + [true];
  }

  lemma ClockEvict(cm: seq<Frame>, cm': seq<Frame>, dir: Directory, swept: Directory, dir': Directory, hand: nat,
                   v: nat, q: nat, m: nat)
    requires Shaped(dir) && Shaped(swept) && Shaped(dir') && Paged(cm, m) && m == |cm| && q < PAGES
    requires Loads(cm, cm', v, q)
    requires ClockPolicy.Proper(ClockOf(cm, dir, m, hand), m) && q !in ClockOf(cm, dir, m, hand).pages
    requires ClockPolicy.Sweep(ClockOf(cm, dir, m, hand).refs, hand) == (v, ClockOf(cm, swept, m, hand).refs)
    requires Entry(dir', q).ref
    requires forall g | 0 <= g < m && g != v :: Entry(dir', cm[g].pte).ref == Entry(swept, cm[g].pte).ref
    ensures ClockOf(cm', dir', m, v + 1) == ClockPolicy.Step(ClockOf(cm, dir, m, hand), q, m)
  {
    var s, t, s' := ClockOf(cm, dir, m, hand), ClockOf(cm, swept, m, hand), ClockOf(cm', dir', m, v + 1);
    assert s'.pages == s.pages[v := q];
    assert s'.refs == t.refs[v := true];
  }
}

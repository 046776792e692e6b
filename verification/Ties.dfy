/** How the page table and the swap file stand for a LossyMemory.

    `Fate` says what a call of find_physpage does to every entry; `Tied` which pages
    are resident, dirty and saved according to the entries; and a call keeps the tie
    with the memory one step on. */
module Ties {
  import opened Options
  import opened Sequences
  import opened PageTable
  import opened SwapSpace
  import opened FlatMemory
  import opened Paging
  import opened Residents
  import opened PolicySteps
  import opened Access
  import L = LossyMemory

  // ----- every entry

  /** The page of `r` is marked; the victim, which was resident, is on swap at `at`;
      for any other page at most the reference bit changes. */
  ghost predicate EntryFate(m: Snap, r: Ref, victim: Option<nat>, at: int, m': Snap, p: nat)
    requires Shaped(m.dir) && Shaped(m'.dir) && p < PAGES
  {
    var e, e' := Entry(m.dir, p), Entry(m'.dir, p);
    if p == PageOf(r) then
      e' == Pte(e'.num, true, IsWrite(r) || if e.valid then e.dirty else !e.onswap, true, false, e.swapOff)
    else if victim == Some(p) then e' == e.(onswap := true, valid := false, swapOff := at, ref := e'.ref)
    else e' == e.(ref := e'.ref)
  }

  /** The page goes to its own slot, else to a free one, else nowhere. */
  ghost predicate SavedAt(m: Snap, p: nat, at: int)
    requires Shaped(m.dir) && p < PAGES
  {
    var e := Entry(m.dir, p);
    if e.swapOff != INVALID_SWAP then at == e.swapOff
    else if SlotsFull(m) then at == INVALID_SWAP
    else IsSlot(at, m.slots) && at / 16 !in m.used
  }

  ghost predicate Fate(m: Snap, r: Ref, victim: Option<nat>, at: int, m': Snap) {
    && Shaped(m.dir) && Shaped(m'.dir) && PageOf(r) < PAGES && m'.slots == m.slots
    && (victim.Some? ==>
          && victim.value < PAGES && victim.value != PageOf(r) && Entry(m.dir, victim.value).valid
          && SavedAt(m, victim.value, at))
    && forall p: nat | p < PAGES :: EntryFate(m, r, victim, at, m', p)
  }

  lemma HitFate(m: Snap, n: nat, flat: Flat, r: Ref, m': Snap)
    requires Inv(m, n, NONE, flat) && Marked(m, PageOf(r), r.vaddr, IsWrite(r), m') && Entry(m.dir, PageOf(r)).valid
    ensures Fate(m, r, None, INVALID_SWAP, m')
  {
    var q := PageOf(r);
    var e := Entry(m.dir, q);
    assert EntryOk(m, n, NONE, q);
    SetEntryFacts(m.dir, q, e.(valid := true, ref := true, dirty := e.dirty || IsWrite(r)));
  }

  /** The victim of a miss, and its slot. */
  lemma VictimSaved(m: Snap, n: nat, flat: Flat, q: nat, a: Alloc, claimed: Snap)
    requires Inv(m, n, NONE, flat) && Allocated(m, n, q, a, claimed) && !Entry(m.dir, q).valid && n == |m.cm|
    requires m.cm[a.frame].pte < PAGES
    requires a.at == INVALID_SWAP <==> !CanSave(Entry(a.swept, m.cm[a.frame].pte), SlotsFull(m))
    ensures var p := m.cm[a.frame].pte; p != q && Entry(m.dir, p).valid && SavedAt(m, p, a.at)
  {
    assert FrameOk(m, n, NONE, a.frame);
  }

  lemma MissFate(m: Snap, n: nat, flat: Flat, r: Ref, a: Alloc, claimed: Snap, m': Snap)
    requires Inv(m, n, NONE, flat) && Allocated(m, n, PageOf(r), a, claimed) && !Entry(m.dir, PageOf(r)).valid
    requires Missed(m, n, PageOf(r), a, r.vaddr, IsWrite(r), m')
    requires n == |m.cm| ==> m.cm[a.frame].pte < PAGES
    requires n == |m.cm| ==> (a.at == INVALID_SWAP <==> !CanSave(Entry(a.swept, m.cm[a.frame].pte), SlotsFull(m)))
    ensures Fate(m, r, Victim(m, n, a), a.at, m')
  {
    hide Inv;
    var q := PageOf(r);
    var e := Entry(m.dir, q);
    SetEntryFacts(a.hollow.dir, q, LoadedEntry(a.frame, !e.onswap, IsWrite(r), e.swapOff));
    if n == |m.cm| {
      var p := m.cm[a.frame].pte;
      VictimSaved(m, n, flat, q, a, claimed);
      SetEntryFacts(a.swept, p, Entry(a.swept, p).(onswap := true, valid := false, swapOff := a.at));
    }
  }

  lemma CallFate(c: Call, flat: Flat, a: Alloc, claimed: Snap, m1: Snap, v1: View, m': Snap)
    requires Inv(c.m, c.n, NONE, flat) && Ready(c) && Located(c, a, claimed, m1, v1) && Went(c, a, claimed, m')
    ensures Fate(c.m, c.r, CallVictim(c, a), if IsHit(c) then INVALID_SWAP else a.at, m')
  {
    if IsHit(c) {
      HitFate(c.m, c.n, flat, c.r, m');
    } else {
      MissFate(c.m, c.n, flat, c.r, a, claimed, m');
    }
  }

  // ----- the tie

  /** The flags of the entries and the slots are those of the memory `s`.  A page that
      is not resident, or is clean, has been evicted before. */
  ghost predicate Tied(m: Snap, s: L.Mem) {
    && Shaped(m.dir) && (forall q | q in s.cells :: q < PAGES)
    && s.resident <= s.cells.Keys
    && (forall q | q in s.cells :: q in s.resident <==> Entry(m.dir, q).valid)
    && (forall q | q in s.resident :: q in s.dirty <==> Entry(m.dir, q).dirty)
    && Distinct(s.order) && (forall q | q in s.order :: q in s.cells)
    && (forall q | q in s.cells :: q in Take(s.order, m.slots) <==> Entry(m.dir, q).swapOff != INVALID_SWAP)
    && (forall q | q in s.cells && !(Entry(m.dir, q).valid && Entry(m.dir, q).dirty) :: q in s.order)
  }

  /** The pages with a slot are the first `slots` ever evicted. */
  lemma SlottedAreFirst(m: Snap, s: L.Mem)
    requires Tied(m, s)
    ensures Slotted(m.dir, s.cells.Keys) == ToSet(Take(s.order, m.slots))
  {
    forall q | q in Take(s.order, m.slots)
      ensures q in s.order
    {
    }
  }

  lemma BelowFull(used: set<nat>, slots: nat)
    requires forall i | i in used :: i < slots
    ensures (forall i: nat | i < slots :: i in used) <==> |used| == slots
  {
    BelowCount(slots);
    assert used <= Below(slots);
    if |used| == slots && used != Below(slots) {
      var i :| i in Below(slots) && i !in used;
      SubsetSize(used, Below(slots) - {i});
    }
    if forall i: nat | i < slots :: i in used {
      assert used == Below(slots);
    }
  }

  /** No slot is free exactly when that many pages have been evicted. */
  lemma FullMeansEvicted(m: Snap, n: nat, s: L.Mem)
    requires Inv(m, n, NONE, s.cells) && Tied(m, s)
    ensures SlotsFull(m) <==> |s.order| >= m.slots
  {
    SlottedAreFirst(m, s);
    DistinctSize(Take(s.order, m.slots));
    BelowFull(m.used, m.slots);
  }

  /** `s'` is `s` one step on, but for what the pages hold. */
  ghost predicate Advances(s: L.Mem, r: Ref, victim: Option<nat>, s': L.Mem) {
    && s'.cells.Keys == s.cells.Keys + {PageOf(r)}
    && s'.resident == L.Residents(s.resident, PageOf(r), victim)
    && s'.dirty == L.Dirtied(s, r)
    && s'.order == L.Evictions(s.order, victim)
  }

  /** An untouched page has nothing in its entry. */
  lemma Untouched(m: Snap, n: nat, flat: Flat, q: nat)
    requires Inv(m, n, NONE, flat) && q < PAGES && q !in flat
    ensures Entry(m.dir, q) == EMPTY
  {
    assert EntryOk(m, n, NONE, q);
    assert q in flat <==> Paging.Touched(m.dir, q);
  }

  /** A page that is touched is resident or on swap. */
  lemma OnSwap(m: Snap, n: nat, flat: Flat, q: nat)
    requires Inv(m, n, NONE, flat) && q in flat
    ensures q < PAGES && WellShaped(m) && Entry(m.dir, q).onswap == !Entry(m.dir, q).valid
  {
    assert q in flat <==> Paging.Touched(m.dir, q);
    assert EntryOk(m, n, NONE, q);
  }

  lemma EvictedPlace(order: seq<nat>, p: nat, slots: nat, q: nat)
    requires Distinct(order)
    ensures var order' := L.Evictions(order, Some(p));
            Distinct(order') && (q in order' <==> q in order || q == p)
    ensures var order' := L.Evictions(order, Some(p));
            q in Take(order', slots) <==> q in Take(order, slots) || (q == p && p !in order && |order| < slots)
  {
    var order' := L.Evictions(order, Some(p));
    if p !in order {
      if |order| < slots {
        assert Take(order', slots) == order + [p];
      } else {
        assert Take(order', slots) == Take(order, slots);
      }
    }
  }

  /** Entries and memory after the step, for one page. */
  lemma TiePage(m: Snap, n: nat, s: L.Mem, r: Ref, victim: Option<nat>, at: int, m': Snap, s': L.Mem, p: nat)
    requires Inv(m, n, NONE, s.cells) && Tied(m, s)
    requires Fate(m, r, victim, at, m') && Advances(s, r, victim, s') && p in s'.cells
    ensures p < PAGES
    ensures p in s'.resident <==> Entry(m'.dir, p).valid
    ensures p in s'.resident ==> (p in s'.dirty <==> Entry(m'.dir, p).dirty)
    ensures p in Take(s'.order, m'.slots) <==> Entry(m'.dir, p).swapOff != INVALID_SWAP
    ensures !(Entry(m'.dir, p).valid && Entry(m'.dir, p).dirty) ==> p in s'.order
  {
    assert EntryFate(m, r, victim, at, m', p);
    FullMeansEvicted(m, n, s);
    if p in s.cells {
      OnSwap(m, n, s.cells, p);
    } else {
      Untouched(m, n, s.cells, p);
      assert p !in Take(s.order, m.slots);
    }
    if victim.Some? {
      EvictedPlace(s.order, victim.value, m.slots, p);
    }
  }

  /** The order of first evictions after the step. */
  lemma TieOrder(m: Snap, n: nat, s: L.Mem, r: Ref, victim: Option<nat>, at: int, m': Snap, s': L.Mem)
    requires Inv(m, n, NONE, s.cells) && Tied(m, s)
    requires Fate(m, r, victim, at, m') && Advances(s, r, victim, s')
    ensures Distinct(s'.order) && s'.resident <= s'.cells.Keys
    ensures forall q | q in s'.order :: q in s'.cells
  {
    if victim.Some? {
      VictimTouched(m, n, s.cells, victim.value);
      forall q
        ensures Distinct(s'.order) && (q in s'.order <==> q in s.order || q == victim.value)
      {
        EvictedPlace(s.order, victim.value, m.slots, q);
      }
    }
  }

  lemma VictimTouched(m: Snap, n: nat, flat: Flat, p: nat)
    requires Inv(m, n, NONE, flat) && p < PAGES && Entry(m.dir, p).valid
    ensures p in flat
  {
    assert p in flat <==> Paging.Touched(m.dir, p);
  }

  lemma TieKeeps(m: Snap, n: nat, s: L.Mem, r: Ref, victim: Option<nat>, at: int, m': Snap, s': L.Mem)
    requires Inv(m, n, NONE, s.cells) && Tied(m, s)
    requires Fate(m, r, victim, at, m') && Advances(s, r, victim, s')
    ensures Tied(m', s')
  {
    TieOrder(m, n, s, r, victim, at, m', s');
    forall p | p in s'.cells
      ensures p < PAGES && (p in s'.resident <==> Entry(m'.dir, p).valid)
      ensures p in s'.resident ==> (p in s'.dirty <==> Entry(m'.dir, p).dirty)
      ensures p in Take(s'.order, m'.slots) <==> Entry(m'.dir, p).swapOff != INVALID_SWAP
      ensures !(Entry(m'.dir, p).valid && Entry(m'.dir, p).dirty) ==> p in s'.order
    {
      TiePage(m, n, s, r, victim, at, m', s', p);
    }
  }

  // ----- residency

  lemma FramedIsResident(m: Snap, n: nat, s: L.Mem, q: nat)
    requires Inv(m, n, NONE, s.cells) && Tied(m, s)
    ensures n <= |m.cm| && (q in s.resident <==> exists f :: 0 <= f < n && m.cm[f].pte == q)
  {
    if f :| 0 <= f < n && m.cm[f].pte == q {
      assert FrameOk(m, n, NONE, f);
      assert q in s.cells <==> Paging.Touched(m.dir, q);
    }
    if q in s.resident {
      assert EntryOk(m, n, NONE, q);
      assert m.cm[Entry(m.dir, q).num].pte == q;
    }
  }

  /** The resident pages are those in the first `n` frames. */
  lemma ResidentSize(m: Snap, n: nat, s: L.Mem)
    requires Inv(m, n, NONE, s.cells) && Tied(m, s)
    ensures |s.resident| == n
  {
    InvPaged(m, n, s.cells);
    var pages := seq(n, f requires 0 <= f < n => m.cm[f].pte);
    forall q
      ensures q in s.resident <==> q in pages
    {
      FramedIsResident(m, n, s, q);
      if q in s.resident {
        var f :| 0 <= f < n && m.cm[f].pte == q;
        assert pages[f] == q;
      }
    }
    assert ToSet(pages) == s.resident;
    DistinctSize(pages);
  }

  lemma GoneAgrees(m: Snap, n: nat, s: L.Mem, q: nat)
    requires Inv(m, n, NONE, s.cells) && Tied(m, s) && q < PAGES
    ensures Gone(m.dir, q) <==> L.Gone(s, q, m.slots)
    ensures q in s.resident <==> Entry(m.dir, q).valid
  {
    if q in s.cells {
      OnSwap(m, n, s.cells, q);
    } else {
      Untouched(m, n, s.cells, q);
    }
  }

  /** Evicting a clean page changes nothing in the swap file, whether its slot has the
      bytes already or it has no slot and gets none. */
  lemma CleanEviction(m: Snap, n: nat, s: L.Mem, v: nat, at: int)
    requires Inv(m, n, NONE, s.cells) && Tied(m, s) && n == |m.cm| && v < n && m.cm[v].pte < PAGES
    requires Entry(m.dir, m.cm[v].pte).valid && !Entry(m.dir, m.cm[v].pte).dirty && SavedAt(m, m.cm[v].pte, at)
    ensures SlotFor(m, v, at) && Evicted(m, v, at).file == m.file && Evicted(m, v, at).used == m.used
  {
    var p := m.cm[v].pte;
    InvFrame(m, n, s.cells, v);
    GoneAgrees(m, n, s, p);
    if Entry(m.dir, p).swapOff == INVALID_SWAP {
      FullMeansEvicted(m, n, s);
    } else {
      CleanWriteChangesNothing(m, n, s.cells, p);
    }
  }

  lemma StartTied(m: Snap)
    requires Shaped(m.dir)
    ensures Tied(m, L.EMPTY)
  {
  }
}

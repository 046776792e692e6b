/** The invariant of the pager, on snapshots of its state.

    It ties the page table, the coremap, physical memory, the swap bitmap and
    the swap file to the contents of the pages.  While a fault is being
    handled one frame, the hole, belongs to no page; between accesses there is
    none (NONE). */
module Paging {
  import opened PageBytes
  import opened PageTable
  import opened SwapSpace
  import opened FlatMemory
  import ClockHand
  import LossyMemory
  import opened Options

  const NONE: int := -1

  datatype Snap = Snap(cm: seq<Frame>, dir: Directory, mem: seq<Byte>, used: set<nat>, slots: nat, file: seq<Byte>)

  ghost predicate WellShaped(m: Snap) {
    0 < |m.cm| <= 0x10_0000 && |m.mem| == 16 * |m.cm| && Shaped(m.dir)
  }

  /** The first `n` frames are in use, and each but the hole is owned by the
      valid entry it points to. */
  ghost predicate FrameOk(m: Snap, n: nat, hole: int, f: nat)
    requires WellShaped(m) && f < |m.cm|
  {
    && m.cm[f].inUse == (f < n)
    && (f < n && f != hole ==>
          && m.cm[f].pte < PAGES
          && Entry(m.dir, m.cm[f].pte).valid
          && Entry(m.dir, m.cm[f].pte).num == f)
  }

  /** A valid entry owns a frame; an entry on swap is not valid and names the frame it
      had; the others are untouched.  A slot is a used one and the file reaches past it. */
  ghost predicate EntryOk(m: Snap, n: nat, hole: int, q: nat)
    requires WellShaped(m) && q < PAGES
  {
    var e := Entry(m.dir, q);
    && e.num < |m.cm|
    && (e.valid ==> !e.onswap && e.num < n <= |m.cm| && e.num != hole && m.cm[e.num].pte == q)
    && (!e.valid && !e.onswap ==> e == EMPTY)
    && (e.onswap ==> n == |m.cm|)
    && (e.swapOff != INVALID_SWAP ==>
          && IsSlot(e.swapOff, m.slots) && e.swapOff / 16 in m.used
          && |FileRead(m.file, e.swapOff, 16)| == 16)
  }

  /** No two pages share a slot. */
  ghost predicate SlotsApart(dir: Directory)
    requires Shaped(dir)
  {
    forall q: nat, r: nat | q < PAGES && r < PAGES && q != r && Entry(dir, q).swapOff != INVALID_SWAP ::
      Entry(dir, q).swapOff != Entry(dir, r).swapOff
  }

  predicate Holds(p: Page, c: Cell) {
    Address(p) == c.vaddr && Version(p) == c.writes % WORD
  }

  /** Page `q` holds the contents `c` in its frame or, on swap, in its slot.  The slot
      of a clean page has the bytes of its frame. */
  ghost predicate Keeps(m: Snap, q: nat, c: Cell)
    requires WellShaped(m) && q < PAGES
  {
    var e := Entry(m.dir, q);
    && (e.valid ==> e.num < |m.cm| && Holds(FrameBytes(m.mem, e.num), c))
    && (e.onswap ==>
          && e.swapOff >= 0
          && |FileRead(m.file, e.swapOff, 16)| == 16
          && Holds(FileRead(m.file, e.swapOff, 16), c))
    && (e.valid && !e.dirty && e.swapOff >= 0 ==> FileRead(m.file, e.swapOff, 16) == FrameBytes(m.mem, e.num))
  }

  /** Page `q` is on swap without a slot: its contents are nowhere. */
  predicate Gone(dir: Directory, q: nat)
    requires Shaped(dir) && q < PAGES
  {
    Entry(dir, q).onswap && Entry(dir, q).swapOff == INVALID_SWAP
  }

  ghost predicate Touched(dir: Directory, q: nat)
    requires Shaped(dir)
  {
    q < PAGES && (Entry(dir, q).valid || Entry(dir, q).onswap)
  }

  /** The pages that own a slot. */
  ghost function Slotted(dir: Directory, keys: set<nat>): set<nat>
    requires Shaped(dir) && forall q | q in keys :: q < PAGES
  {
    set q | q in keys && Entry(dir, q).swapOff != INVALID_SWAP
  }

  /** The whole invariant: `n` frames in use, and the contents `flat` for every
      touched page that is not gone. */
  ghost predicate Inv(m: Snap, n: nat, hole: int, flat: Flat) {
    && WellShaped(m)
    && n <= |m.cm|
    && (forall f: nat | f < |m.cm| :: FrameOk(m, n, hole, f))
    && (forall q: nat | q < PAGES :: EntryOk(m, n, hole, q))
    && SlotsApart(m.dir)
    && (forall q: nat :: q in flat <==> Touched(m.dir, q))
    && (forall i | i in m.used :: i < m.slots)
    && (forall q: nat | q in flat && !Gone(m.dir, q) :: Keeps(m, q, flat[q]))
    && |m.used| == |Slotted(m.dir, flat.Keys)|
  }

  /** The state the simulation starts in. */
  lemma StartInv(m: Snap)
    requires WellShaped(m) && m.used == {}
    requires forall f: nat | f < |m.cm| :: !m.cm[f].inUse
    requires forall d | 0 <= d < PTRS :: m.dir[d] == []
    ensures Inv(m, 0, NONE, map[])
  {
    assert forall q: nat | q < PAGES :: Entry(m.dir, q) == EMPTY;
    var none: Flat := map[];
    assert Slotted(m.dir, none.Keys) == {};
  }

  /** With every frame in use, each entry the coremap points to points back. */
  lemma InUseIsFull(m: Snap, n: nat, flat: Flat)
    requires Inv(m, n, NONE, flat) && n == |m.cm|
    ensures ClockHand.Full(m.cm, m.dir)
  {
    forall f | 0 <= f < |m.cm|
      ensures m.cm[f].pte < PAGES && HasTable(m.dir, m.cm[f].pte)
      ensures Entry(m.dir, m.cm[f].pte).valid && Entry(m.dir, m.cm[f].pte).num == f
    {
      assert FrameOk(m, n, NONE, f);
    }
  }

  // ----- one event of a fault at a time

  /** Allocating a second-level table. */
  lemma AddTable(m: Snap, n: nat, hole: int, flat: Flat, d: nat)
    requires Inv(m, n, hole, flat) && d < PTRS && m.dir[d] == []
    ensures Inv(m.(dir := m.dir[d := NewTable()]), n, hole, flat)
  {
    NewTableFacts(m.dir, d);
    var m' := m.(dir := m.dir[d := NewTable()]);
    forall q: nat | q < PAGES
      ensures EntryOk(m', n, hole, q)
    {
      assert EntryOk(m, n, hole, q);
    }
    forall f: nat | f < |m.cm|
      ensures FrameOk(m', n, hole, f)
    {
      assert FrameOk(m, n, hole, f);
    }
    forall q: nat | q in flat && !Gone(m'.dir, q)
      ensures Keeps(m', q, flat[q])
    {
      assert Keeps(m, q, flat[q]);
    }
    forall q: nat
      ensures q in flat <==> Touched(m'.dir, q)
    {
      assert q in flat <==> Touched(m.dir, q);
    }
    forall q: nat, r: nat | q < PAGES && r < PAGES && q != r && Entry(m'.dir, q).swapOff != INVALID_SWAP
      ensures Entry(m'.dir, q).swapOff != Entry(m'.dir, r).swapOff
    {
      assert Entry(m'.dir, q) == Entry(m.dir, q) && Entry(m'.dir, r) == Entry(m.dir, r);
    }
    assert Slotted(m'.dir, flat.Keys) == Slotted(m.dir, flat.Keys);
  }

  /** Writing a page to a slot leaves the pages in other slots alone. */
  lemma OtherSlots(m: Snap, n: nat, hole: int, flat: Flat, v: nat, at: int, data: Page, q: nat)
    requires Inv(m, n, hole, flat) && v < PAGES && q < PAGES && q != v
    requires IsSlot(at, m.slots) && (at == Entry(m.dir, v).swapOff || at / 16 !in m.used)
    requires Entry(m.dir, q).swapOff != INVALID_SWAP
    ensures Entry(m.dir, q).swapOff >= 0
    ensures FileRead(FileWrite(m.file, at, data), Entry(m.dir, q).swapOff, 16)
            == FileRead(m.file, Entry(m.dir, q).swapOff, 16)
    ensures Entry(m.dir, q).swapOff != at
  {
    assert EntryOk(m, n, hole, q);
    ReadOtherSlot(m.file, at, data, m.slots, Entry(m.dir, q).swapOff);
  }

  /** The state after the page of frame `v` was written out to `at`, or was not,
      when `at` is INVALID_SWAP (A3/pagetable.c:56-77). */
  ghost function Evicted(m: Snap, v: nat, at: int): Snap
    requires WellShaped(m) && v < |m.cm| && m.cm[v].pte < PAGES && Entry(m.dir, m.cm[v].pte).valid
    requires at == INVALID_SWAP || at >= 0
  {
    var q := m.cm[v].pte;
    var e := Entry(m.dir, q);
    m.(dir := SetEntry(m.dir, q, e.(onswap := true, valid := false, swapOff := at)),
       used := if at == INVALID_SWAP || at == e.swapOff then m.used else m.used + {at / 16},
       file := if at == INVALID_SWAP then m.file else FileWrite(m.file, at, FrameBytes(m.mem, v)))
  }

  /** `at` is a slot swap_pageout may have given for the page in frame `v`: its
      own, a new one, or none. */
  ghost predicate SlotFor(m: Snap, v: nat, at: int)
    requires WellShaped(m)
  {
    && v < |m.cm| && m.cm[v].pte < PAGES && Entry(m.dir, m.cm[v].pte).valid
    && var e := Entry(m.dir, m.cm[v].pte);
       || (at == INVALID_SWAP && e.swapOff == INVALID_SWAP)
       || (IsSlot(at, m.slots) && if e.swapOff == INVALID_SWAP then at / 16 !in m.used else at == e.swapOff)
  }

  ghost predicate CanEvict(m: Snap, n: nat, flat: Flat, v: nat, at: int) {
    Inv(m, n, NONE, flat) && n == |m.cm| && v < n && FrameOk(m, n, NONE, v) && SlotFor(m, v, at)
  }

  lemma EvictOther(m: Snap, n: nat, flat: Flat, v: nat, at: int, q: nat)
    requires CanEvict(m, n, flat, v, at) && q < PAGES && q != m.cm[v].pte
    ensures EntryOk(Evicted(m, v, at), n, v, q)
    ensures at != INVALID_SWAP ==> Entry(m.dir, q).swapOff != at
    ensures q in flat && !Gone(m.dir, q) ==> Keeps(Evicted(m, v, at), q, flat[q])
  {
    var p := m.cm[v].pte;
    SetEntryFacts(m.dir, p, Entry(m.dir, p).(onswap := true, valid := false, swapOff := at));
    assert EntryOk(m, n, NONE, q);
    assert EntryOk(m, n, NONE, p);
    if at != INVALID_SWAP && Entry(m.dir, q).swapOff != INVALID_SWAP {
      OtherSlots(m, n, NONE, flat, p, at, FrameBytes(m.mem, v), q);
    }
    if q in flat && !Gone(m.dir, q) {
      assert Keeps(m, q, flat[q]);
    }
  }

  lemma EvictVictim(m: Snap, n: nat, flat: Flat, v: nat, at: int)
    requires CanEvict(m, n, flat, v, at)
    ensures var p := m.cm[v].pte;
            && p in flat
            && EntryOk(Evicted(m, v, at), n, v, p)
            && (at != INVALID_SWAP ==> Keeps(Evicted(m, v, at), p, flat[p]))
  {
    var p := m.cm[v].pte;
    SetEntryFacts(m.dir, p, Entry(m.dir, p).(onswap := true, valid := false, swapOff := at));
    assert EntryOk(m, n, NONE, p);
    assert Touched(m.dir, p);
    if at != INVALID_SWAP {
      ReadAfterWrite(m.file, at, FrameBytes(m.mem, v), m.slots);
    }
    assert Keeps(m, p, flat[p]);
  }

  lemma EvictApart(m: Snap, n: nat, flat: Flat, v: nat, at: int)
    requires CanEvict(m, n, flat, v, at)
    ensures var m' := Evicted(m, v, at); Shaped(m'.dir) && SlotsApart(m'.dir)
  {
    var p := m.cm[v].pte;
    var m' := Evicted(m, v, at);
    SetEntryFacts(m.dir, p, Entry(m.dir, p).(onswap := true, valid := false, swapOff := at));
    forall q: nat, r: nat | q < PAGES && r < PAGES && q != r && Entry(m'.dir, q).swapOff != INVALID_SWAP
      ensures Entry(m'.dir, q).swapOff != Entry(m'.dir, r).swapOff
    {
      if q == p {
        EvictOther(m, n, flat, v, at, r);
      } else if r == p {
        EvictOther(m, n, flat, v, at, q);
      }
    }
  }

  lemma EvictTouched(m: Snap, n: nat, flat: Flat, v: nat, at: int)
    requires CanEvict(m, n, flat, v, at)
    ensures Shaped(Evicted(m, v, at).dir)
    ensures forall q: nat :: q in flat <==> Touched(Evicted(m, v, at).dir, q)
  {
    var p := m.cm[v].pte;
    SetEntryFacts(m.dir, p, Entry(m.dir, p).(onswap := true, valid := false, swapOff := at));
    forall q: nat
      ensures q in flat <==> Touched(Evicted(m, v, at).dir, q)
    {
      assert q in flat <==> Touched(m.dir, q);
    }
  }

  lemma SlottedAfter(dir: Directory, dir': Directory, keys: set<nat>, p: nat)
    requires Shaped(dir) && Shaped(dir') && p in keys && forall q | q in keys :: q < PAGES
    requires forall q | q in keys && q != p :: Entry(dir', q).swapOff == Entry(dir, q).swapOff
    ensures Entry(dir', p).swapOff != INVALID_SWAP ==> Slotted(dir', keys) == Slotted(dir, keys) + {p}
    ensures Entry(dir', p).swapOff == Entry(dir, p).swapOff ==> Slotted(dir', keys) == Slotted(dir, keys)
  {
  }

  lemma OneMore(used: set<nat>, owners: set<nat>, slot: nat, q: nat)
    requires |used| == |owners| && slot !in used && q !in owners
    ensures |used + {slot}| == |owners + {q}|
  {
  }

  lemma EvictCount(m: Snap, n: nat, flat: Flat, v: nat, at: int)
    requires CanEvict(m, n, flat, v, at) && Shaped(Evicted(m, v, at).dir)
    ensures |Evicted(m, v, at).used| == |Slotted(Evicted(m, v, at).dir, flat.Keys)|
  {
    var p := m.cm[v].pte;
    var e := Entry(m.dir, p);
    var m' := Evicted(m, v, at);
    EvictVictim(m, n, flat, v, at);
    SetEntryFacts(m.dir, p, e.(onswap := true, valid := false, swapOff := at));
    var slotted := Slotted(m.dir, flat.Keys);
    assert |m.used| == |slotted|;
    SlottedAfter(m.dir, m'.dir, flat.Keys, p);
    if at != e.swapOff {
      OneMore(m.used, slotted, at / 16, p);
    }
  }

  lemma EvictFrame(m: Snap, n: nat, flat: Flat, v: nat, at: int, f: nat)
    requires CanEvict(m, n, flat, v, at) && f < |m.cm|
    ensures WellShaped(Evicted(m, v, at)) && FrameOk(Evicted(m, v, at), n, v, f)
  {
    var p := m.cm[v].pte;
    SetEntryFacts(m.dir, p, Entry(m.dir, p).(onswap := true, valid := false, swapOff := at));
    assert FrameOk(m, n, NONE, f);
  }

  /** An eviction keeps the contents of every page, the victim's included, unless the
      victim found no slot and so is gone. */
  lemma EvictKeeps(m: Snap, n: nat, flat: Flat, v: nat, at: int)
    requires CanEvict(m, n, flat, v, at)
    ensures Inv(Evicted(m, v, at), n, v, flat)
  {
    var p := m.cm[v].pte;
    var m' := Evicted(m, v, at);
    hide Slotted, SlotsApart, EntryOk, FrameOk, Keeps, Touched;
    EvictApart(m, n, flat, v, at);
    EvictTouched(m, n, flat, v, at);
    EvictCount(m, n, flat, v, at);
    EvictVictim(m, n, flat, v, at);
    SetEntryFacts(m.dir, p, Entry(m.dir, p).(onswap := true, valid := false, swapOff := at));
    forall q: nat | q < PAGES
      ensures EntryOk(m', n, v, q)
    {
      if q != p { EvictOther(m, n, flat, v, at, q); }
    }
    forall f: nat | f < |m.cm|
      ensures FrameOk(m', n, v, f)
    {
      EvictFrame(m, n, flat, v, at, f);
    }
    forall q: nat | q in flat && !Gone(m'.dir, q)
      ensures Keeps(m', q, flat[q])
    {
      if q != p { EvictOther(m, n, flat, v, at, q); }
    }
  }

  /** Any other change at an access concerns one page `q`, its frame `h` and its
      entry: page-in, first touch, flags, version word. */
  ghost predicate OnlyPage(m: Snap, m': Snap, q: nat, h: nat) {
    && WellShaped(m) && WellShaped(m') && q < PAGES && h < |m.cm| == |m'.cm|
    && (forall r: nat | r < PAGES && r != q :: Entry(m'.dir, r) == Entry(m.dir, r))
    && (forall f: nat | f < |m.cm| && f != h :: m'.cm[f] == m.cm[f] && FrameBytes(m'.mem, f) == FrameBytes(m.mem, f))
    && m'.used == m.used && m'.slots == m.slots && m'.file == m.file
    && m'.cm[h].inUse && m'.cm[h].pte == q
    && Entry(m'.dir, q).valid && !Entry(m'.dir, q).onswap && Entry(m'.dir, q).num == h
    && Entry(m'.dir, q).swapOff == Entry(m.dir, q).swapOff
  }

  /** The hole, or the next free frame, takes page `q`; or `q` already has frame `h`. */
  ghost predicate CanTake(m: Snap, n: nat, hole: int, q: nat, h: nat, n': nat)
    requires WellShaped(m) && q < PAGES
  {
    || (n' == n && hole == h < n && !Entry(m.dir, q).valid)
    || (n' == n + 1 && hole == NONE && h == n && !Entry(m.dir, q).valid)
    || (n' == n && hole == NONE && Entry(m.dir, q).valid && Entry(m.dir, q).num == h)
  }

  lemma TakeOther(m: Snap, m': Snap, n: nat, n': nat, hole: int, flat: Flat, q: nat, h: nat, r: nat)
    requires Inv(m, n, hole, flat)
    requires OnlyPage(m, m', q, h) && CanTake(m, n, hole, q, h, n')
    requires r < PAGES && r != q
    ensures EntryOk(m', n', NONE, r)
    ensures r in flat && !Gone(m'.dir, r) ==> Keeps(m', r, flat[r])
  {
    assert EntryOk(m, n, hole, r);
    assert EntryOk(m, n, hole, q);
    if r in flat && !Gone(m'.dir, r) {
      assert Keeps(m, r, flat[r]);
    }
  }

  lemma TakeApart(m: Snap, m': Snap, q: nat, h: nat)
    requires OnlyPage(m, m', q, h) && SlotsApart(m.dir)
    ensures SlotsApart(m'.dir)
  {
    forall r: nat, t: nat | r < PAGES && t < PAGES && r != t && Entry(m'.dir, r).swapOff != INVALID_SWAP
      ensures Entry(m'.dir, r).swapOff != Entry(m'.dir, t).swapOff
    {
      assert Entry(m'.dir, r).swapOff == Entry(m.dir, r).swapOff;
      assert Entry(m'.dir, t).swapOff == Entry(m.dir, t).swapOff;
    }
  }

  lemma TakeTouched(m: Snap, m': Snap, n: nat, hole: int, flat: Flat, q: nat, h: nat, flat': Flat)
    requires Inv(m, n, hole, flat) && OnlyPage(m, m', q, h)
    requires flat'.Keys == flat.Keys + {q}
    ensures forall r: nat :: r in flat' <==> Touched(m'.dir, r)
  {
    forall r: nat
      ensures r in flat' <==> Touched(m'.dir, r)
    {
      assert r in flat <==> Touched(m.dir, r);
    }
  }

  lemma TakeCount(m: Snap, m': Snap, n: nat, hole: int, flat: Flat, q: nat, h: nat, keys: set<nat>)
    requires Inv(m, n, hole, flat) && OnlyPage(m, m', q, h)
    requires keys == flat.Keys + {q} && forall r | r in keys :: r < PAGES
    ensures Slotted(m'.dir, keys) == Slotted(m.dir, flat.Keys) && |m'.used| == |Slotted(m'.dir, keys)|
  {
    assert EntryOk(m, n, hole, q);
    assert q in flat <==> Touched(m.dir, q);
  }

  /** Giving page `q` its frame, or changing the page in it, keeps every other
      page; `q` itself must then hold its new contents. */
  lemma TakeKeeps(m: Snap, m': Snap, n: nat, n': nat, hole: int, flat: Flat, q: nat, h: nat,
                  flat': Flat)
    requires Inv(m, n, hole, flat)
    requires OnlyPage(m, m', q, h) && CanTake(m, n, hole, q, h, n')
    requires flat'.Keys == flat.Keys + {q} && forall r | r in flat && r != q :: flat'[r] == flat[r]
    requires Keeps(m', q, flat'[q])
    ensures Inv(m', n', NONE, flat')
  {
    TakeApart(m, m', q, h);
    TakeTouched(m, m', n, hole, flat, q, h, flat');
    TakeCount(m, m', n, hole, flat, q, h, flat'.Keys);
    forall r: nat | r < PAGES
      ensures EntryOk(m', n', NONE, r)
    {
      assert EntryOk(m, n, hole, q);
      if r != q { TakeOther(m, m', n, n', hole, flat, q, h, r); }
    }
    forall f: nat | f < |m.cm|
      ensures FrameOk(m', n', NONE, f)
    {
      assert FrameOk(m, n, hole, f);
      assert EntryOk(m, n, hole, q);
    }
    forall r: nat | r in flat' && !Gone(m'.dir, r)
      ensures Keeps(m', r, flat'[r])
    {
      if r != q { TakeOther(m, m', n, n', hole, flat, q, h, r); }
    }
  }

  /** Reference bits do not matter (the clock clears them). */
  lemma RefBitsKeep(m: Snap, dir': Directory, n: nat, flat: Flat)
    requires Inv(m, n, NONE, flat) && ClockHand.SameButRefs(m.dir, dir')
    ensures Inv(m.(dir := dir'), n, NONE, flat)
  {
    var m' := m.(dir := dir');
    forall q: nat | q < PAGES
      ensures EntryOk(m', n, NONE, q)
    {
      assert EntryOk(m, n, NONE, q);
    }
    forall f: nat | f < |m.cm|
      ensures FrameOk(m', n, NONE, f)
    {
      assert FrameOk(m, n, NONE, f);
    }
    forall q: nat
      ensures q in flat <==> Touched(m'.dir, q)
    {
      assert q in flat <==> Touched(m.dir, q);
    }
    forall q: nat, r: nat | q < PAGES && r < PAGES && q != r && Entry(m'.dir, q).swapOff != INVALID_SWAP
      ensures Entry(m'.dir, q).swapOff != Entry(m'.dir, r).swapOff
    {
      assert Entry(m'.dir, q).swapOff == Entry(m.dir, q).swapOff;
      assert Entry(m'.dir, r).swapOff == Entry(m.dir, r).swapOff;
    }
    forall q: nat | q in flat && !Gone(m'.dir, q)
      ensures Keeps(m', q, flat[q])
    {
      assert Keeps(m, q, flat[q]);
    }
    assert Slotted(m'.dir, flat.Keys) == Slotted(m.dir, flat.Keys);
  }

  // ----- the whole of allocate_frame

  ghost predicate SlotsSane(m: Snap) {
    && Shaped(m.dir)
    && forall q: nat | q < PAGES :: Entry(m.dir, q).swapOff == INVALID_SWAP || IsSlot(Entry(m.dir, q).swapOff, m.slots)
  }

  /** What happened on the way: the directory after the policy chose its victim,
      the state with the frame emptied, and the slot the victim went to. */
  datatype Alloc = Alloc(frame: nat, swept: Directory, hollow: Snap, at: int)

  /** Physical memory once frame `f` was filled from the slot of page `q`, if it has one. */
  ghost function FilledIn(m: Snap, f: nat, q: nat): seq<Byte>
    requires WellShaped(m) && f < |m.cm| && q < PAGES
  {
    var off := Entry(m.dir, q).swapOff;
    if off < 0 then m.mem else Overwrite(m.mem, 16 * f, FileRead(m.file, off, 16))
  }

  /** An emptied frame was filled for page `q` and is now its. */
  ghost function Refilled(m: Snap, f: nat, q: nat): Snap
    requires WellShaped(m) && f < |m.cm| && q < PAGES
  {
    m.(mem := FilledIn(m, f, q), cm := m.cm[f := m.cm[f].(inUse := true, pte := q)])
  }

  /** From `m` with `n` frames in use to `m'`, page `q` got frame `a.frame`. */
  ghost predicate Allocated(m: Snap, n: nat, q: nat, a: Alloc, m': Snap) {
    && WellShaped(m) && n <= |m.cm| && q < PAGES && a.frame < |m.cm|
    && WellShaped(a.hollow) && a.hollow.cm == m.cm
    && (if n < |m.cm| then
          a.frame == n && a.hollow == m && m'.mem == m.mem
        else
          && ClockHand.SameButRefs(m.dir, a.swept)
          && SlotFor(m.(dir := a.swept), a.frame, a.at)
          && a.hollow == Evicted(m.(dir := a.swept), a.frame, a.at)
          && m'.mem == FilledIn(a.hollow, a.frame, q))
    && m' == a.hollow.(cm := m.cm[a.frame := m.cm[a.frame].(inUse := true, pte := q)], mem := m'.mem)
  }

  /** Emptying a frame leaves the entry of a page that is not resident alone. */
  lemma HollowEntry(m: Snap, a: Alloc, q: nat)
    requires WellShaped(m) && SlotsSane(m)
    requires ClockHand.SameButRefs(m.dir, a.swept) && SlotFor(m.(dir := a.swept), a.frame, a.at)
    requires a.hollow == Evicted(m.(dir := a.swept), a.frame, a.at)
    requires q < PAGES && !Entry(m.dir, q).valid && HasTable(m.dir, q)
    ensures WellShaped(a.hollow)
    ensures HasTable(a.hollow.dir, q) && Entry(a.hollow.dir, q) == Entry(m.dir, q)
    ensures Entry(a.hollow.dir, q).swapOff == INVALID_SWAP || Entry(a.hollow.dir, q).swapOff >= 0
  {
    var p := m.cm[a.frame].pte;
    SetEntryFacts(a.swept, p, Entry(a.swept, p).(onswap := true, valid := false, swapOff := a.at));
  }

  lemma AllocatedFree(m: Snap, n: nat, q: nat, a: Alloc, m': Snap)
    requires n < |m.cm| && WellShaped(m) && q < PAGES && a.frame == n && a.hollow == m
    requires m' == m.(cm := m.cm[n := m.cm[n].(inUse := true, pte := q)])
    ensures Allocated(m, n, q, a, m')
  {
  }

  ghost function Hole(m: Snap, n: nat, a: Alloc): int {
    if n < |m.cm| then NONE else a.frame
  }

  lemma AllocatedEntry(m: Snap, n: nat, q: nat, a: Alloc, m': Snap)
    requires Allocated(m, n, q, a, m') && !Entry(m.dir, q).valid && HasTable(m.dir, q)
    ensures HasTable(a.hollow.dir, q) && Entry(a.hollow.dir, q) == Entry(m.dir, q)
    ensures WellShaped(m') && m'.dir == a.hollow.dir
  {
    if n == |m.cm| {
      var p := m.cm[a.frame].pte;
      SetEntryFacts(a.swept, p, Entry(a.swept, p).(onswap := true, valid := false, swapOff := a.at));
    }
  }

  lemma AllocatedKeeps(m: Snap, n: nat, flat: Flat, q: nat, a: Alloc, m': Snap)
    requires Inv(m, n, NONE, flat) && Allocated(m, n, q, a, m')
    ensures Inv(a.hollow, n, Hole(m, n, a), flat)
  {
    if n == |m.cm| {
      var swept := m.(dir := a.swept);
      RefBitsKeep(m, a.swept, n, flat);
      InvFrame(swept, n, flat, a.frame);
      EvictKeeps(swept, n, flat, a.frame, a.at);
    }
  }

  lemma InvFrame(m: Snap, n: nat, flat: Flat, f: nat)
    requires Inv(m, n, NONE, flat) && f < |m.cm|
    ensures FrameOk(m, n, NONE, f)
  {
  }

  lemma InvParts(m: Snap, n: nat, flat: Flat, q: nat)
    requires Inv(m, n, NONE, flat) && q < PAGES
    ensures WellShaped(m) && n <= |m.cm| && SlotsSane(m) && EntryOk(m, n, NONE, q)
    ensures forall f | 0 <= f < |m.cm| :: m.cm[f].inUse == (f < n)
  {
    forall f | 0 <= f < |m.cm|
      ensures m.cm[f].inUse == (f < n)
    {
      assert FrameOk(m, n, NONE, f);
    }
    forall r: nat | r < PAGES
      ensures Entry(m.dir, r).swapOff == INVALID_SWAP || IsSlot(Entry(m.dir, r).swapOff, m.slots)
    {
      assert EntryOk(m, n, NONE, r);
    }
  }

  lemma InvKeeps(m: Snap, n: nat, hole: int, flat: Flat, q: nat)
    requires Inv(m, n, hole, flat) && q in flat
    ensures q < PAGES && WellShaped(m) && (!Gone(m.dir, q) ==> Keeps(m, q, flat[q]))
  {
    assert Touched(m.dir, q);
  }

  // ----- the whole of find_physpage

  /** The entry of a page that was just given frame `f`, marked valid and referenced. */
  function LoadedEntry(f: nat, isNew: bool, write: bool, swapOff: int): Pte {
    Pte(f, true, isNew || write, true, false, swapOff)
  }

  ghost function InitFrame(mem: seq<Byte>, f: nat, isNew: bool, vaddr: nat): seq<Byte>
    requires 16 * (f + 1) <= |mem|
  {
    if isNew then Overwrite(mem, 16 * f, FreshPage(vaddr)) else mem
  }

  /** The state after a miss on `vaddr` in page `q`, up to the reference hook. */
  ghost predicate Missed(m: Snap, n: nat, q: nat, a: Alloc, vaddr: nat, write: bool, m': Snap) {
    && WellShaped(m) && n <= |m.cm| && q < PAGES && a.frame < |m.cm|
    && WellShaped(a.hollow) && a.hollow.cm == m.cm && HasTable(a.hollow.dir, q)
    && var e := Entry(m.dir, q);
       m' == a.hollow.(
         cm := m.cm[a.frame := Frame(true, q, vaddr)],
         dir := SetEntry(a.hollow.dir, q, LoadedEntry(a.frame, !e.onswap, write, e.swapOff)),
         mem := InitFrame(if n < |m.cm| then m.mem else FilledIn(a.hollow, a.frame, q), a.frame, !e.onswap, vaddr))
  }

  ghost function AfterMiss(m: Snap, n: nat): nat
  {
    if n < |m.cm| then n + 1 else n
  }

  /** The page a miss evicts, if any. */
  ghost function Victim(m: Snap, n: nat, a: Alloc): Option<nat>
    requires a.frame < |m.cm|
  {
    if n < |m.cm| then None else Some(m.cm[a.frame].pte)
  }

  /** Page `q` has its contents, or those of the victim if its own are gone. */
  ghost function Arrived(flat: Flat, q: nat, vaddr: nat, gone: bool, victim: Option<nat>): Flat {
    flat[q := LossyMemory.Content(flat, q, vaddr, gone, victim)]
  }

  lemma MissedBytes(m: Snap, n: nat, q: nat, a: Alloc, claimed: Snap, vaddr: nat, write: bool, m': Snap)
    requires Allocated(m, n, q, a, claimed) && Missed(m, n, q, a, vaddr, write, m')
    ensures |m'.mem| == |a.hollow.mem|
    ensures forall f: nat | f < |m.cm| && f != a.frame :: FrameBytes(m'.mem, f) == FrameBytes(a.hollow.mem, f)
    ensures !Entry(m.dir, q).onswap ==> FrameBytes(m'.mem, a.frame) == FreshPage(vaddr)
    ensures var off := Entry(a.hollow.dir, q).swapOff;
            Entry(m.dir, q).onswap && n == |m.cm| && off >= 0 && |FileRead(m'.file, off, 16)| == 16 ==>
              FrameBytes(m'.mem, a.frame) == FileRead(m'.file, off, 16)
    ensures Entry(m.dir, q).onswap && n == |m.cm| && Entry(a.hollow.dir, q).swapOff < 0 ==>
              FrameBytes(m'.mem, a.frame) == FrameBytes(m.mem, a.frame)
  {
    var off := Entry(a.hollow.dir, q).swapOff;
    var filled := if n < |m.cm| then m.mem else FilledIn(a.hollow, a.frame, q);
    if n == |m.cm| && off >= 0 {
      WriteFrame(a.hollow.mem, a.frame, FileRead(a.hollow.file, off, 16));
    }
    WriteFrame(filled, a.frame, FreshPage(vaddr));
  }

  /** A miss on page `q`, from `m` with `n` frames in use to `m'`. */
  ghost predicate MissOn(m: Snap, n: nat, flat: Flat, q: nat, a: Alloc, claimed: Snap, vaddr: nat, write: bool,
                         m': Snap) {
    && Inv(m, n, NONE, flat) && Allocated(m, n, q, a, claimed)
    && Missed(m, n, q, a, vaddr, write, m') && vaddr < ADDRESSES
    && WellShaped(m) && q < PAGES && !Entry(m.dir, q).valid && HasTable(m.dir, q)
    && WellShaped(a.hollow) && Entry(a.hollow.dir, q) == Entry(m.dir, q)
  }

  lemma MissedOnly(m: Snap, n: nat, flat: Flat, q: nat, a: Alloc, claimed: Snap, vaddr: nat, write: bool, m': Snap)
    requires MissOn(m, n, flat, q, a, claimed, vaddr, write, m')
    ensures OnlyPage(a.hollow, m', q, a.frame)
    ensures CanTake(a.hollow, n, Hole(m, n, a), q, a.frame, AfterMiss(m, n))
    ensures Entry(m'.dir, q) == LoadedEntry(a.frame, !Entry(m.dir, q).onswap, write, Entry(m.dir, q).swapOff)
  {
    MissedBytes(m, n, q, a, claimed, vaddr, write, m');
    var e := Entry(m.dir, q);
    SetEntryFacts(a.hollow.dir, q, LoadedEntry(a.frame, !e.onswap, write, e.swapOff));
  }

  lemma OwnContents(m: Snap, n: nat, flat: Flat, q: nat, a: Alloc, claimed: Snap, vaddr: nat, write: bool, m': Snap)
    requires MissOn(m, n, flat, q, a, claimed, vaddr, write, m') && !Gone(m.dir, q)
    requires q in flat ==> Keeps(a.hollow, q, flat[q])
    requires OnlyPage(a.hollow, m', q, a.frame)
    requires Entry(m'.dir, q) == LoadedEntry(a.frame, !Entry(m.dir, q).onswap, write, Entry(m.dir, q).swapOff)
    ensures Keeps(m', q, if q in flat then flat[q] else Cell(vaddr, 0))
  {
    MissedBytes(m, n, q, a, claimed, vaddr, write, m');
    assert EntryOk(m, n, NONE, q);
    assert q in flat <==> Touched(m.dir, q);
    FreshPageReads(vaddr);
  }

  /** A page that is gone comes back with what was in the frame it gets: the page
      that made room for it. */
  lemma OtherContents(m: Snap, n: nat, flat: Flat, q: nat, a: Alloc, claimed: Snap, vaddr: nat, write: bool, m': Snap)
    requires MissOn(m, n, flat, q, a, claimed, vaddr, write, m') && Gone(m.dir, q)
    requires OnlyPage(a.hollow, m', q, a.frame)
    requires Entry(m'.dir, q) == LoadedEntry(a.frame, !Entry(m.dir, q).onswap, write, Entry(m.dir, q).swapOff)
    ensures q in flat && a.frame < |m.cm| && Victim(m, n, a).Some? && Victim(m, n, a).value in flat
    ensures Keeps(m', q, flat[Victim(m, n, a).value])
  {
    MissedBytes(m, n, q, a, claimed, vaddr, write, m');
    assert EntryOk(m, n, NONE, q);
    assert FrameOk(m, n, NONE, a.frame);
    assert q in flat <==> Touched(m.dir, q);
    var p := m.cm[a.frame].pte;
    assert p in flat <==> Touched(m.dir, p);
    assert EntryOk(m, n, NONE, p);
    assert Keeps(m, p, flat[p]);
  }

  lemma MissedContents(m: Snap, n: nat, flat: Flat, q: nat, a: Alloc, claimed: Snap, vaddr: nat, write: bool, m': Snap)
    requires MissOn(m, n, flat, q, a, claimed, vaddr, write, m')
    requires q in flat && !Gone(m.dir, q) ==> Keeps(a.hollow, q, flat[q])
    ensures OnlyPage(a.hollow, m', q, a.frame)
    ensures CanTake(a.hollow, n, Hole(m, n, a), q, a.frame, AfterMiss(m, n))
    ensures a.frame < |m.cm| && Keeps(m', q, Arrived(flat, q, vaddr, Gone(m.dir, q), Victim(m, n, a))[q])
  {
    MissedOnly(m, n, flat, q, a, claimed, vaddr, write, m');
    if Gone(m.dir, q) {
      OtherContents(m, n, flat, q, a, claimed, vaddr, write, m');
    } else {
      OwnContents(m, n, flat, q, a, claimed, vaddr, write, m');
    }
  }

  /** A page that is not resident is not the one evicted. */
  lemma HollowKeeps(m: Snap, n: nat, flat: Flat, q: nat, a: Alloc, claimed: Snap, vaddr: nat, write: bool, m': Snap)
    requires Inv(m, n, NONE, flat) && Allocated(m, n, q, a, claimed)
    requires Missed(m, n, q, a, vaddr, write, m')
    requires !Entry(m.dir, q).valid && HasTable(m.dir, q) && vaddr < ADDRESSES
    ensures Inv(a.hollow, n, Hole(m, n, a), flat)
    ensures MissOn(m, n, flat, q, a, claimed, vaddr, write, m')
    ensures q in flat && !Gone(m.dir, q) ==> Keeps(a.hollow, q, flat[q])
  {
    AllocatedKeeps(m, n, flat, q, a, claimed);
    AllocatedEntry(m, n, q, a, claimed);
    if q in flat {
      InvKeeps(a.hollow, n, Hole(m, n, a), flat, q);
    }
  }

  lemma ArrivedFacts(flat: Flat, q: nat, vaddr: nat, gone: bool, victim: Option<nat>)
    ensures Arrived(flat, q, vaddr, gone, victim).Keys == flat.Keys + {q}
    ensures forall r | r in flat && r != q :: Arrived(flat, q, vaddr, gone, victim)[r] == flat[r]
  {
  }

  /** A miss gives the page a frame with its own contents and keeps all others,
      but for a victim that could not be saved; a page that is gone gets the
      contents of the victim. */
  lemma MissKeeps(m: Snap, n: nat, flat: Flat, q: nat, a: Alloc, claimed: Snap, vaddr: nat, write: bool, m': Snap)
    requires Inv(m, n, NONE, flat) && Allocated(m, n, q, a, claimed)
    requires Missed(m, n, q, a, vaddr, write, m')
    requires !Entry(m.dir, q).valid && HasTable(m.dir, q) && vaddr < ADDRESSES
    ensures a.frame < |m.cm|
    ensures Inv(m', AfterMiss(m, n), NONE, Arrived(flat, q, vaddr, Gone(m.dir, q), Victim(m, n, a)))
  {
    HollowKeeps(m, n, flat, q, a, claimed, vaddr, write, m');
    MissedContents(m, n, flat, q, a, claimed, vaddr, write, m');
    ArrivedFacts(flat, q, vaddr, Gone(m.dir, q), Victim(m, n, a));
    TakeKeeps(a.hollow, m', n, AfterMiss(m, n), Hole(m, n, a), flat, q, a.frame,
              Arrived(flat, q, vaddr, Gone(m.dir, q), Victim(m, n, a)));
  }

  /** Marking page `q` valid, referenced and, for a write, dirty
      (A3/pagetable.c:254-261). */
  ghost predicate Marked(m: Snap, q: nat, vaddr: nat, write: bool, m': Snap) {
    && WellShaped(m) && q < PAGES && HasTable(m.dir, q)
    && var e := Entry(m.dir, q);
       && e.num < |m.cm|
       && m' == m.(cm := m.cm[e.num := m.cm[e.num].(vaddr := vaddr)],
                   dir := SetEntry(m.dir, q, e.(valid := true, ref := true, dirty := e.dirty || write)))
  }

  lemma HitKeeps(m: Snap, n: nat, flat: Flat, q: nat, vaddr: nat, write: bool, m': Snap)
    requires Inv(m, n, NONE, flat) && Marked(m, q, vaddr, write, m') && Entry(m.dir, q).valid
    ensures q in flat && Inv(m', n, NONE, flat)
  {
    var e := Entry(m.dir, q);
    assert EntryOk(m, n, NONE, q);
    assert FrameOk(m, n, NONE, e.num);
    assert Touched(m.dir, q);
    SetEntryFacts(m.dir, q, e.(valid := true, ref := true, dirty := e.dirty || write));
    assert Keeps(m, q, flat[q]);
    TakeKeeps(m, m', n, n, NONE, flat, q, e.num, flat);
  }

  ghost function Bump(flat: Flat, q: nat): Flat
    requires q in flat
  {
    flat[q := flat[q].(writes := flat[q].writes + 1)]
  }

  ghost predicate BumpState(m: Snap, q: nat, m': Snap) {
    && WellShaped(m) && q < PAGES && Entry(m.dir, q).valid && Entry(m.dir, q).dirty && Entry(m.dir, q).num < |m.cm|
    && m' == m.(mem := Overwrite(m.mem, 16 * Entry(m.dir, q).num, Bumped(FrameBytes(m.mem, Entry(m.dir, q).num))))
  }

  lemma BumpBytes(m: Snap, q: nat, m': Snap)
    requires BumpState(m, q, m')
    ensures |m'.mem| == |m.mem|
    ensures var f := Entry(m.dir, q).num;
            && FrameBytes(m'.mem, f) == Bumped(FrameBytes(m.mem, f))
            && forall g: nat | g < |m.cm| && g != f :: FrameBytes(m'.mem, g) == FrameBytes(m.mem, g)
  {
    var f := Entry(m.dir, q).num;
    WriteFrame(m.mem, f, Bumped(FrameBytes(m.mem, f)));
  }

  lemma NextVersion(writes: nat)
    ensures (writes % WORD + 1) % WORD == (writes + 1) % WORD
  {
  }

  lemma BumpHolds(p: Page, c: Cell)
    requires Holds(p, c)
    ensures Holds(Bumped(p), c.(writes := c.writes + 1))
  {
    BumpedReads(p);
    NextVersion(c.writes);
  }

  lemma BumpContents(m: Snap, q: nat, m': Snap, c: Cell)
    requires BumpState(m, q, m') && !Entry(m.dir, q).onswap && Keeps(m, q, c)
    ensures WellShaped(m') && Keeps(m', q, c.(writes := c.writes + 1))
  {
    BumpBytes(m, q, m');
    BumpHolds(FrameBytes(m.mem, Entry(m.dir, q).num), c);
  }

  lemma BumpOnly(m: Snap, n: nat, flat: Flat, q: nat, m': Snap)
    requires Inv(m, n, NONE, flat) && BumpState(m, q, m')
    ensures !Entry(m.dir, q).onswap && OnlyPage(m, m', q, Entry(m.dir, q).num)
  {
    assert EntryOk(m, n, NONE, q);
    assert FrameOk(m, n, NONE, Entry(m.dir, q).num);
    BumpBytes(m, q, m');
  }

  /** Incrementing the version word of a resident dirty page. */
  lemma BumpKeeps(m: Snap, n: nat, flat: Flat, q: nat, m': Snap)
    requires Inv(m, n, NONE, flat) && BumpState(m, q, m') && q in flat
    ensures Inv(m', n, NONE, Bump(flat, q))
  {
    BumpOnly(m, n, flat, q, m');
    InvKeeps(m, n, NONE, flat, q);
    BumpContents(m, q, m', flat[q]);
    TakeKeeps(m, m', n, n, NONE, flat, q, Entry(m.dir, q).num, Bump(flat, q));
  }

  // ----- what the invariant says between accesses

  /** Frames in use and valid entries correspond one to one; no entry is both valid
      and on swap; while a frame is free, no page is on swap. */
  lemma Bijection(m: Snap, n: nat, flat: Flat)
    requires Inv(m, n, NONE, flat)
    ensures WellShaped(m) && forall f: nat | f < |m.cm| && m.cm[f].inUse ::
              m.cm[f].pte < PAGES && Entry(m.dir, m.cm[f].pte).valid && Entry(m.dir, m.cm[f].pte).num == f
    ensures forall q: nat | q < PAGES && Entry(m.dir, q).valid ::
              var f := Entry(m.dir, q).num; f < |m.cm| && m.cm[f].inUse && m.cm[f].pte == q && !Entry(m.dir, q).onswap
    ensures (exists f: nat :: f < |m.cm| && !m.cm[f].inUse) ==> forall q: nat | q < PAGES :: !Entry(m.dir, q).onswap
  {
    forall f: nat | f < |m.cm| && m.cm[f].inUse
      ensures m.cm[f].pte < PAGES && Entry(m.dir, m.cm[f].pte).valid && Entry(m.dir, m.cm[f].pte).num == f
    {
      assert FrameOk(m, n, NONE, f);
    }
    forall q: nat | q < PAGES
      ensures Entry(m.dir, q).valid ==>
                var f := Entry(m.dir, q).num; f < |m.cm| && m.cm[f].inUse && m.cm[f].pte == q && !Entry(m.dir, q).onswap
      ensures (exists f: nat :: f < |m.cm| && !m.cm[f].inUse) ==> !Entry(m.dir, q).onswap
    {
      InvParts(m, n, flat, q);
    }
  }

  /** The write of a clean eviction could be skipped: the slot has the bytes already. */
  lemma CleanWriteChangesNothing(m: Snap, n: nat, flat: Flat, q: nat)
    requires Inv(m, n, NONE, flat) && q in flat
    requires WellShaped(m) && q < PAGES && Entry(m.dir, q).valid && !Entry(m.dir, q).dirty
    requires Entry(m.dir, q).swapOff != INVALID_SWAP
    ensures var e := Entry(m.dir, q);
            && IsSlot(e.swapOff, m.slots) && e.swapOff / 16 in m.used && e.num < |m.cm|
            && FileWrite(m.file, e.swapOff, FrameBytes(m.mem, e.num)) == m.file
  {
    InvKeeps(m, n, NONE, flat, q);
    InvParts(m, n, flat, q);
    RewriteSame(m.file, Entry(m.dir, q).swapOff, FrameBytes(m.mem, Entry(m.dir, q).num));
  }
}

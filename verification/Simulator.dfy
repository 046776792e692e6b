/** The pager and its client (A3/pagetable.c:26-269, A3/sim.c:49-83). */
module Simulator {
  import opened Options
  import opened PageBytes
  import opened PageTable
  import opened FlatMemory
  import opened Paging
  import opened PolicySteps
  import opened Access
  import opened Ties
  import opened Serving
  import opened Runs
  import FifoQueue
  import LruList
  import Residents
  import PteWord
  import ClockHand
  import L = LossyMemory
  import Losses
  import SwapSpace

  const NO_COUNTS: L.Counts := L.Counts(0, 0, 0, 0, 0)

  /** The counters once a page was evicted, or was not. */
  function AddEviction(c: L.Counts, evicted: Option<bool>): L.Counts {
    c.(clean := c.clean + if evicted == Some(false) then 1 else 0,
       dirty := c.dirty + if evicted == Some(true) then 1 else 0)
  }

  /** Where the three-way branch of a call ends, with the counters before and after. */
  ghost predicate Settles(c: Call, a: Alloc, claimed: Snap, m1: Snap, v1: View, counts: L.Counts, counts': L.Counts) {
    && Ready(c) && (IsHit(c) || a.frame < |c.m.cm|)
    && Located(c, a, claimed, m1, v1)
    && counts' == L.Tick(counts, IsHit(c), DirtyOf(c.m, CallVictim(c, a)))
  }

  lemma HitSettles(c: Call, a: Alloc, claimed: Snap, m1: Snap, v1: View, counts: L.Counts, counts': L.Counts)
    requires Ready(c) && IsHit(c) && m1 == c.m && v1 == c.v
    requires counts' == counts.(hits := counts.hits + 1, refs := counts.refs + 1)
    ensures Settles(c, a, claimed, m1, v1, counts, counts')
  {
  }

  lemma MissSettles(c: Call, a: Alloc, claimed: Snap, m1: Snap, v1: View, counts: L.Counts, counts': L.Counts)
    requires Ready(c) && !IsHit(c) && a.frame < |c.m.cm|
    requires Faulted(c.m, c.n, PageOf(c.r), a, claimed, c.r.vaddr, m1)
    requires Picked(c.alg, c.m, c.n, c.v, a, v1)
    requires counts' == AddEviction(counts, DirtyOf(c.m, Victim(c.m, c.n, a))).(misses := counts.misses + 1,
                                                                               refs := counts.refs + 1)
    ensures Settles(c, a, claimed, m1, v1, counts, counts')
  {
  }

  /** Where a call ends. */
  ghost predicate Ends(c: Call, a: Alloc, m': Snap, v': View, frame: nat, counts: L.Counts, counts': L.Counts) {
    && Called(c, a, m', v', frame)
    && Ready(c) && (IsHit(c) || a.frame < |c.m.cm|)
    && counts' == L.Tick(counts, IsHit(c), DirtyOf(c.m, CallVictim(c, a)))
  }

  lemma CallEnds(c: Call, a: Alloc, claimed: Snap, m1: Snap, v1: View, m': Snap, v': View, frame: nat,
                 counts: L.Counts, counts': L.Counts)
    requires Settles(c, a, claimed, m1, v1, counts, counts')
    requires Marked(m1, PageOf(c.r), c.r.vaddr, IsWrite(c.r), m') && WellShaped(m') && PageOf(c.r) < PAGES
    requires Entry(m'.dir, PageOf(c.r)).num == frame && Referenced(c.alg, v1, v', frame)
    ensures Ends(c, a, m', v', frame, counts, counts')
  {
    CalledBy(c, a, claimed, m1, v1, m', v', frame);
  }

  lemma FramePosition(frame: nat)
    ensures (frame * SIMPAGESIZE) % SIMPAGESIZE == 0 && (frame * SIMPAGESIZE) / SIMPAGESIZE == frame
  {
  }

  class Simulator {
    const memsize: nat
    const algorithm: Algorithm
    const coremap: array<Frame>
    const pgdir: array<seq<Pte>>
    const physmem: array<Byte>
    const swap: SwapSpace.SwapSpace
    const lru: LruList.LruList
    const fifo: FifoQueue.FifoQueue
    const clock: ClockHand.ClockHand

    var hitCount: nat
    var missCount: nat
    var refCount: nat
    var evictCleanCount: nat
    var evictDirtyCount: nat

    ghost var used: nat    // frames in use
    ghost var mem: L.Mem   // the memory implemented

    /** The sizes, and that the arrays are different objects. */
    ghost predicate Wired() {
      && 0 < memsize <= 0x10_0000
      && coremap.Length == memsize && physmem.Length == 16 * memsize && pgdir.Length == PTRS
      && lru.above.Length == memsize && fifo.above.Length == memsize
      && coremap as object != pgdir && coremap as object != physmem && coremap as object != swap.swapmap.v
      && coremap as object != lru.above && coremap as object != lru.below && coremap as object != fifo.above
      && pgdir as object != physmem && pgdir as object != swap.swapmap.v && pgdir as object != lru.above
      && pgdir as object != lru.below && pgdir as object != fifo.above && physmem as object != swap.swapmap.v
      && physmem as object != lru.above && physmem as object != lru.below && physmem as object != fifo.above
      && swap.swapmap.v as object != lru.above && swap.swapmap.v as object != lru.below
      && swap.swapmap.v as object != fifo.above && lru.above as object != fifo.above
      && lru.below as object != fifo.above
    }

    ghost function Now(): Snap
      requires swap.Valid()
      reads coremap, pgdir, physmem, swap, swap.swapmap.v
    {
      Snap(coremap[..], pgdir[..], physmem[..], swap.Used(), swap.swapmap.nbits, swap.file)
    }

    ghost function PolicyView(): View
      reads lru, fifo, clock
    {
      View(lru.order, fifo.order, clock.hand)
    }

    ghost function State(): Whole
      requires swap.Valid()
      reads this`used, this`mem, coremap, pgdir, physmem, swap, swap.swapmap.v
      reads lru, lru.above, lru.below, fifo, fifo.above, clock
    {
      Whole(Now(), used, mem, PolicyView())
    }

    /** The lists of the policy in use are as they are between accesses. */
    ghost predicate Steady()
      reads lru, lru.above, lru.below, fifo, fifo.above, clock
    {
      match algorithm
      case Rand => true
      case Lru => lru.Valid() && lru.Settled()
      case Fifo => fifo.Valid() && (fifo.order == [] ==> fifo.oldest == FifoQueue.NULL)
      case Clock => true
    }

    /** As Steady, or just after an eviction, when only its frame may come next. */
    ghost predicate CanRef(f: nat)
      reads lru, lru.above, lru.below, fifo, fifo.above, clock
    {
      match algorithm
      case Rand => true
      case Lru => lru.Valid() && (lru.order == [f] ==> lru.Settled())
      case Fifo => fifo.Valid() && fifo.Ready(f)
      case Clock => true
    }

    ghost function Counters(): L.Counts
      reads this`hitCount, this`missCount, this`refCount, this`evictCleanCount, this`evictDirtyCount
    {
      L.Counts(hitCount, missCount, refCount, evictCleanCount, evictDirtyCount)
    }

    ghost predicate Valid()
      reads this, coremap, pgdir, physmem, swap, swap.swapmap.v
      reads lru, lru.above, lru.below, fifo, fifo.above, clock
    {
      && Wired() && swap.Valid()
      && Sane(algorithm, State())
      && Steady()
    }

    constructor (memsize: nat, swapsize: nat, algorithm: Algorithm)
      requires 0 < memsize <= 0x10_0000
      ensures Valid()
      ensures fresh(coremap) && fresh(pgdir) && fresh(physmem) && fresh(swap) && fresh(swap.swapmap.v)
      ensures fresh(lru) && fresh(lru.above) && fresh(lru.below) && fresh(fifo) && fresh(fifo.above) && fresh(clock)
      ensures this.memsize == memsize && this.algorithm == algorithm && swap.swapmap.nbits == swapsize
      ensures used == 0 && mem == L.EMPTY && Counters() == NO_COUNTS
    {
      hide Sane, LruList.LruList.Valid, FifoQueue.FifoQueue.Valid;
      this.memsize := memsize;
      this.algorithm := algorithm;
      swap := new SwapSpace.SwapSpace(swapsize);
      lru := new LruList.LruList(memsize);
      fifo := new FifoQueue.FifoQueue(memsize);
      clock := new ClockHand.ClockHand();
      coremap := new Frame[memsize](_ => Frame(false, 0, 0));
      physmem := new Byte[16 * memsize];
      pgdir := new seq<Pte>[PTRS](_ => []);
      hitCount, missCount, refCount, evictCleanCount, evictDirtyCount := 0, 0, 0, 0, 0;
      used, mem := 0, L.EMPTY;
      new;
      StartValid();
    }

    lemma StartValid()
      requires Wired() && swap.Valid() && swap.Used() == {} && used == 0 && mem == L.EMPTY && clock.hand == 0
      requires Steady() && lru.order == [] && fifo.order == []
      requires forall f | 0 <= f < memsize :: !coremap[f].inUse
      requires forall d | 0 <= d < PTRS :: pgdir[d] == []
      ensures Valid()
    {
      assert forall d | 0 <= d < PTRS :: pgdir[..][d] == [];
      StartSane(algorithm, State());
    }

    // ----- the policy behind evict_fcn and ref_fcn

    /** Chooses a victim; `draw` is what random() returns (A3/rand.c:17-22).  LRU reads
        through a null pointer when there is a single frame (LruList.EvictNeedsTwo). */
    method EvictFcn(draw: nat) returns (frame: nat)
      requires Wired() && ClockHand.Full(coremap[..], pgdir[..]) && (algorithm.Lru? ==> 2 <= memsize)
      requires Steady() && ViewOk(algorithm, PolicyView(), memsize, memsize)
      modifies lru, lru.above, lru.below, fifo, fifo.above, clock, pgdir
      ensures frame < memsize && CanRef(frame)
      ensures Chosen(algorithm, old(PolicyView()), PolicyView(), frame)
      ensures algorithm.Rand? ==> frame == draw % memsize
      ensures ClockHand.SameButRefs(old(pgdir[..]), pgdir[..])
      ensures algorithm.Clock? ==> ClockHand.Swept(coremap[..], old(pgdir[..]), old(clock.hand), frame, pgdir[..])
    {
      hide ClockHand.Swept, ClockHand.SameButRefs, LruList.Linked, FifoQueue.Chained;
      ClockHand.SameButRefsSelf(pgdir[..]);
      match algorithm {
        case Rand =>
          frame := draw % memsize;
        case Lru =>
          var victim := lru.Evict();
          frame := PteWord.Number(Entry(pgdir[..], coremap[victim].pte));
        case Fifo =>
          var victim := fifo.Evict();
          frame := PteWord.Number(Entry(pgdir[..], coremap[victim].pte));
        case Clock =>
          ghost var visits;
          frame, visits := clock.Evict(coremap, pgdir);
      }
    }

    method RefFcn(f: nat)
      requires Wired() && f < memsize && CanRef(f)
      modifies lru, lru.above, lru.below, fifo, fifo.above, clock
      ensures Steady() && Referenced(algorithm, old(PolicyView()), PolicyView(), f)
    {
      match algorithm {
        case Rand =>
        case Lru => lru.Ref(f);
        case Fifo => fifo.Ref(f);
        case Clock =>
      }
    }

    // ----- one fault

    /** init_second_level, when the directory entry is not valid. */
    method EnsureTable(q: nat)
      requires Wired() && swap.Valid() && Shaped(pgdir[..]) && q < PAGES
      modifies pgdir
      ensures Shaped(pgdir[..]) && HasTable(pgdir[..], q)
      ensures Now() == old(Now()).(dir := if HasTable(old(Now()).dir, q) then old(Now()).dir
                                          else old(Now()).dir[q / PTRS := NewTable()])
    {
      if pgdir[q / PTRS] == [] {
        pgdir[q / PTRS] := NewTable();
        assert pgdir[..] == old(pgdir[..])[q / PTRS := NewTable()];
      }
    }

    /** `*p = e` for the entry of page `q`. */
    method StoreEntry(q: nat, e: Pte)
      requires Wired() && swap.Valid() && Shaped(pgdir[..]) && q < PAGES && HasTable(pgdir[..], q)
      modifies pgdir
      ensures Now() == old(Now()).(dir := SetEntry(old(pgdir[..]), q, e))
    {
      pgdir[q / PTRS] := pgdir[q / PTRS][q % PTRS := e];
      assert pgdir[..] == SetEntry(old(pgdir[..]), q, e);
    }

    /** Writes the victim's page out and marks its entry (A3/pagetable.c:56-71).
        `at` is the slot written, INVALID_SWAP if the page needed one and there
        was none. */
    method SaveVictim(frame: nat) returns (at: int, entry: Pte)
      requires Wired() && swap.Valid() && WellShaped(Now()) && frame < memsize && coremap[frame].pte < PAGES
      requires Entry(pgdir[..], coremap[frame].pte).valid && Entry(pgdir[..], coremap[frame].pte).num < memsize
      requires SlotsSane(Now())
      modifies pgdir, swap, swap.swapmap.v
      ensures swap.Valid()
      ensures SlotFor(old(Now()), frame, at)
      ensures Now() == Evicted(old(Now()), frame, at)
      ensures at == INVALID_SWAP <==>
                !CanSave(Entry(old(Now()).dir, old(Now()).cm[frame].pte), SlotsFull(old(Now())))
      ensures entry.num < memsize && DirtyOf(old(Now()), Some(old(Now()).cm[frame].pte)) == Some(entry.dirty)
    {
      var p := coremap[frame].pte;
      var temp := Entry(pgdir[..], p);
      at := swap.PageOut(physmem, frame, temp.swapOff, 0, 16);
      entry := PteWord.SwapOut(temp, at);
      StoreEntry(p, entry);
    }

    /** The eviction counters (A3/pagetable.c:73-77). */
    method CountEviction(entry: Pte)
      requires entry.num < 0x10_0000
      modifies this`evictCleanCount, this`evictDirtyCount
      ensures Counters() == AddEviction(old(Counters()), Some(entry.dirty))
    {
      var dirty := PteWord.Test(entry, PteWord.PG_DIRTY);
      if dirty {
        evictDirtyCount := evictDirtyCount + 1;
      } else {
        evictCleanCount := evictCleanCount + 1;
      }
    }

    method WriteVictim(frame: nat) returns (at: int)
      requires Wired() && swap.Valid() && WellShaped(Now()) && frame < memsize && coremap[frame].pte < PAGES
      requires Entry(pgdir[..], coremap[frame].pte).valid && Entry(pgdir[..], coremap[frame].pte).num < memsize
      requires SlotsSane(Now())
      modifies this`evictCleanCount, this`evictDirtyCount, pgdir, swap, swap.swapmap.v
      ensures swap.Valid()
      ensures SlotFor(old(Now()), frame, at)
      ensures Now() == Evicted(old(Now()), frame, at)
      ensures at == INVALID_SWAP <==>
                !CanSave(Entry(old(Now()).dir, old(Now()).cm[frame].pte), SlotsFull(old(Now())))
      ensures Counters() == AddEviction(old(Counters()), DirtyOf(old(Now()), Some(old(Now()).cm[frame].pte)))
    {
      var entry;
      at, entry := SaveVictim(frame);
      CountEviction(entry);
    }

    /** EvictFcn, and what it leaves as it was. */
    method ChooseVictim(draw: nat) returns (frame: nat)
      requires Wired() && swap.Valid() && ClockHand.Full(coremap[..], pgdir[..]) && SlotsSane(Now())
      requires Steady() && ViewOk(algorithm, PolicyView(), memsize, memsize) && (algorithm.Lru? ==> 2 <= memsize)
      modifies lru, lru.above, lru.below, fifo, fifo.above, clock, pgdir
      ensures swap.Valid() && frame < memsize && CanRef(frame) && (algorithm.Rand? ==> frame == draw % memsize)
      ensures Now() == old(Now()).(dir := pgdir[..]) && SlotsSane(Now()) && coremap[frame].pte < PAGES
      ensures Entry(pgdir[..], coremap[frame].pte).valid && Entry(pgdir[..], coremap[frame].pte).num < memsize
      ensures Chosen(algorithm, old(PolicyView()), PolicyView(), frame)
      ensures ClockHand.SameButRefs(old(pgdir[..]), pgdir[..])
      ensures algorithm.Clock? ==> ClockHand.Swept(coremap[..], old(pgdir[..]), old(clock.hand), frame, pgdir[..])
    {
      hide CanRef, Chosen, ClockHand.Swept, ClockHand.SameButRefs, ClockHand.Full, SlotsSane, ViewOk;
      ghost var m := Now();
      frame := EvictFcn(draw);
      SweptFrame(m, pgdir[..], frame);
    }

    /** Chooses a victim and empties its frame. */
    method EmptyVictim(draw: nat) returns (ghost a: Alloc, frame: nat)
      requires Wired() && swap.Valid() && ClockHand.Full(coremap[..], pgdir[..]) && SlotsSane(Now())
      requires Steady() && ViewOk(algorithm, PolicyView(), memsize, memsize) && (algorithm.Lru? ==> 2 <= memsize)
      modifies this`evictCleanCount, this`evictDirtyCount
      modifies lru, lru.above, lru.below, fifo, fifo.above, clock, pgdir, swap, swap.swapmap.v
      ensures swap.Valid() && a.frame == frame < memsize && a.hollow == Now() && CanRef(frame)
      ensures algorithm.Rand? ==> frame == draw % memsize
      ensures Emptied(algorithm, old(Now()), old(PolicyView()), a, PolicyView())
      ensures Counters() == AddEviction(old(Counters()), DirtyOf(old(Now()), Some(old(Now()).cm[frame].pte)))
    {
      ghost var m, v := Now(), PolicyView();
      frame := ChooseVictim(draw);
      hide CanRef, Chosen, ClockHand.Swept, ClockHand.SameButRefs, ClockHand.Full, ViewOk, SlotsSane, Emptied;
      hide SlotFor, Evicted, DirtyOf, CanSave, SlotsFull;
      ghost var swept := pgdir[..];
      ghost var at := WriteVictim(frame);
      a := Alloc(frame, swept, Now(), at);
      EmptiedBy(algorithm, m, v, frame, swept, Now(), at, PolicyView());
    }

    /** Fills an emptied frame from the slot of page `q`, if it has one. */
    method FillIn(q: nat, frame: nat)
      requires Wired() && swap.Valid() && WellShaped(Now()) && frame < memsize && q < PAGES
      requires Entry(pgdir[..], q).swapOff == INVALID_SWAP || Entry(pgdir[..], q).swapOff >= 0
      modifies physmem
      ensures Now() == old(Now()).(mem := FilledIn(old(Now()), frame, q))
    {
      var off := Entry(pgdir[..], q).swapOff;
      if off != INVALID_SWAP {
        var got := |SwapSpace.FileRead(swap.file, off, 16)|;
        var rc := swap.PageIn(physmem, frame, off, 0, got);
      }
    }

    /** The first free frame, or `memsize` if all are in use. */
    method FirstFree() returns (i: nat)
      requires Wired()
      ensures i <= memsize && (i < memsize ==> !coremap[i].inUse)
      ensures forall j | 0 <= j < i :: coremap[j].inUse
    {
      i := 0;
      while i < memsize && coremap[i].inUse
        invariant i <= memsize && forall j | 0 <= j < i :: coremap[j].inUse
      {
        i := i + 1;
      }
    }

    /** Records the new owner of a frame (A3/pagetable.c:85-87). */
    method Claim(frame: nat, q: nat)
      requires Wired() && swap.Valid() && frame < memsize
      modifies coremap
      ensures Now() == old(Now()).(cm := old(Now()).cm[frame := old(Now()).cm[frame].(inUse := true, pte := q)])
    {
      coremap[frame] := coremap[frame].(inUse := true, pte := q);
      assert coremap[..] == old(coremap[..])[frame := coremap[frame]];
    }

    method FillAndClaim(q: nat, frame: nat)
      requires Wired() && swap.Valid() && WellShaped(Now()) && frame < memsize && q < PAGES
      requires Entry(pgdir[..], q).swapOff == INVALID_SWAP || Entry(pgdir[..], q).swapOff >= 0
      modifies physmem, coremap
      ensures Now() == Refilled(old(Now()), frame, q)
    {
      FillIn(q, frame);
      Claim(frame, q);
    }

    /** The frame of a victim goes to page `q`, filled from its slot if it has one. */
    method Replace(q: nat, draw: nat) returns (frame: nat, ghost a: Alloc)
      requires Wired() && swap.Valid() && ClockHand.Full(coremap[..], pgdir[..]) && SlotsSane(Now())
      requires Steady() && ViewOk(algorithm, PolicyView(), memsize, memsize) && (algorithm.Lru? ==> 2 <= memsize)
      requires q < PAGES && HasTable(pgdir[..], q) && !Entry(pgdir[..], q).valid
      modifies this`evictCleanCount, this`evictDirtyCount
      modifies coremap, pgdir, physmem, swap, swap.swapmap.v, lru, lru.above, lru.below, fifo, fifo.above, clock
      ensures swap.Valid() && a.frame == frame < memsize && CanRef(frame)
      ensures algorithm.Rand? ==> frame == draw % memsize
      ensures Allocated(old(Now()), memsize, q, a, Now())
      ensures Picked(algorithm, old(Now()), memsize, old(PolicyView()), a, PolicyView())
      ensures Counters() == AddEviction(old(Counters()), DirtyOf(old(Now()), Some(old(Now()).cm[frame].pte)))
    {
      hide Emptied, Allocated, Picked, CanRef;
      ghost var m, v := Now(), PolicyView();
      a, frame := EmptyVictim(draw);
      EmptiedEntry(algorithm, m, v, a, PolicyView(), q);
      FillAndClaim(q, frame);
      EmptiedFilled(algorithm, m, v, a, PolicyView(), q, Now());
    }

    /** Page `q` is not resident, and `n` frames are in use. */
    ghost predicate CanFault(q: nat, n: nat)
      reads coremap, pgdir, physmem, swap, swap.swapmap.v
      reads lru, lru.above, lru.below, fifo, fifo.above, clock
    {
      && Wired() && swap.Valid() && WellShaped(Now()) && SlotsSane(Now())
      && n <= memsize && (forall f | 0 <= f < memsize :: coremap[f].inUse == (f < n))
      && (n == memsize ==> ClockHand.Full(coremap[..], pgdir[..]) && (algorithm.Lru? ==> 2 <= memsize))
      && Steady() && ViewOk(algorithm, PolicyView(), n, memsize)
      && q < PAGES && HasTable(pgdir[..], q) && !Entry(pgdir[..], q).valid && Entry(pgdir[..], q).num < memsize
    }

    /** Finds a frame for page `q`: the first free one, or a victim's, which is
        then filled from the page's slot if it has one (A3/pagetable.c:26-90). */
    method AllocateFrame(q: nat, draw: nat, ghost n: nat) returns (frame: nat, ghost a: Alloc)
      requires CanFault(q, n)
      modifies this`evictCleanCount, this`evictDirtyCount
      modifies coremap, pgdir, physmem, swap, swap.swapmap.v, lru, lru.above, lru.below, fifo, fifo.above, clock
      ensures swap.Valid() && a.frame == frame < memsize && CanRef(frame)
      ensures algorithm.Rand? && n == memsize ==> frame == draw % memsize
      ensures Allocated(old(Now()), n, q, a, Now())
      ensures Picked(algorithm, old(Now()), n, old(PolicyView()), a, PolicyView())
      ensures Counters() == AddEviction(old(Counters()), DirtyOf(old(Now()), Victim(old(Now()), n, a)))
    {
      frame := FirstFree();
      assert frame == n by {
        assert frame < memsize ==> !coremap[frame].inUse;
        assert n < memsize ==> !coremap[n].inUse;
      }
      if frame == memsize {
        frame, a := Replace(q, draw);
      } else {
        a := Alloc(frame, pgdir[..], Now(), INVALID_SWAP);
        Claim(frame, q);
        AllocatedFree(old(Now()), n, q, a, Now());
      }
    }

    /** Zero-fills the frame and records the address in it (A3/pagetable.c:147-159). */
    method InitFrame(frame: nat, vaddr: nat)
      requires Wired() && swap.Valid() && frame < memsize
      modifies physmem
      ensures Now() == old(Now()).(mem := Overwrite(old(physmem[..]), 16 * frame, FreshPage(vaddr)))
    {
      FreshPageWritten(physmem[..], 16 * frame, vaddr);
      Store(physmem, 16 * frame, ToBytes(0, 16));
      Store(physmem, 16 * frame + 4, ToBytes(vaddr, 8));
    }

    /** Fills the entry of a page that was just given frame `f`: a new page is
        initialized and dirty, a page read back from swap has no flag. */
    method Install(q: nat, f: nat, isNew: bool, vaddr: nat)
      requires Wired() && swap.Valid() && Shaped(pgdir[..]) && q < PAGES && HasTable(pgdir[..], q) && f < memsize
      modifies physmem, pgdir
      ensures Now() == old(Now()).(
                         dir := SetEntry(old(pgdir[..]), q,
                                         Pte(f, false, isNew, false, false, Entry(old(pgdir[..]), q).swapOff)),
                         mem := Paging.InitFrame(old(physmem[..]), f, isNew, vaddr))
    {
      if isNew {
        InitFrame(f, vaddr);
      }
      var e := PteWord.Renumber(Entry(pgdir[..], q), f, isNew);
      StoreEntry(q, e);
    }

    /** The entry of page `q` names a frame, which may be referenced. */
    ghost predicate CanMark(q: nat)
      reads coremap, pgdir, physmem, swap, swap.swapmap.v
      reads lru, lru.above, lru.below, fifo, fifo.above, clock
    {
      && Wired() && swap.Valid() && WellShaped(Now()) && q < PAGES && HasTable(pgdir[..], q)
      && Entry(pgdir[..], q).num < memsize && CanRef(Entry(pgdir[..], q).num)
    }

    /** Gives page `q` a frame and fills its entry. */
    method Bring(q: nat, vaddr: nat, isNew: bool, draw: nat, ghost n: nat) returns (ghost a: Alloc, ghost claimed: Snap)
      requires CanFault(q, n) && isNew == !Entry(pgdir[..], q).onswap
      modifies this`evictCleanCount, this`evictDirtyCount
      modifies coremap, pgdir, physmem, swap, swap.swapmap.v, lru, lru.above, lru.below, fifo, fifo.above, clock
      ensures swap.Valid() && a.frame < memsize && CanMark(q)
      ensures Faulted(old(Now()), n, q, a, claimed, vaddr, Now())
      ensures Picked(algorithm, old(Now()), n, old(PolicyView()), a, PolicyView())
      ensures Counters() == AddEviction(old(Counters()), DirtyOf(old(Now()), Victim(old(Now()), n, a)))
    {
      hide Allocated, Faulted, Picked, CanRef;
      ghost var m := Now();
      var f;
      f, a := AllocateFrame(q, draw, n);
      claimed := Now();
      AllocatedEntry(m, n, q, a, claimed);
      Install(q, f, isNew, vaddr);
      FaultedBy(m, n, q, a, claimed, vaddr, Now());
    }

    /** The two miss branches (A3/pagetable.c:213-225). */
    method Fault(q: nat, vaddr: nat, draw: nat, ghost n: nat) returns (ghost a: Alloc, ghost claimed: Snap)
      requires CanFault(q, n)
      modifies this`missCount, this`evictCleanCount, this`evictDirtyCount
      modifies coremap, pgdir, physmem, swap, swap.swapmap.v, lru, lru.above, lru.below, fifo, fifo.above, clock
      ensures swap.Valid() && a.frame < memsize && CanMark(q)
      ensures Faulted(old(Now()), n, q, a, claimed, vaddr, Now())
      ensures Picked(algorithm, old(Now()), n, old(PolicyView()), a, PolicyView())
      ensures Counters() == AddEviction(old(Counters()), DirtyOf(old(Now()), Victim(old(Now()), n, a))).(
                              misses := old(missCount) + 1)
    {
      hide Faulted, Picked, CanMark;
      var onswap := PteWord.Test(Entry(pgdir[..], q), PteWord.PG_ONSWAP);
      a, claimed := Bring(q, vaddr, !onswap, draw, n);
      missCount := missCount + 1;
    }

    /** Marks the page valid, referenced and, for a write, dirty. */
    method Mark(q: nat, vaddr: nat, write: bool) returns (frame: nat)
      requires Wired() && swap.Valid() && WellShaped(Now()) && q < PAGES && HasTable(pgdir[..], q)
      requires Entry(pgdir[..], q).num < memsize
      modifies pgdir, coremap
      ensures Marked(old(Now()), q, vaddr, write, Now())
      ensures frame == Entry(old(Now()).dir, q).num == Entry(Now().dir, q).num
    {
      var p := PteWord.Mark(Entry(pgdir[..], q), write);
      SetEntryFacts(pgdir[..], q, p);
      StoreEntry(q, p);
      frame := PteWord.Number(p);
      coremap[frame] := coremap[frame].(vaddr := vaddr);
      assert coremap[..] == old(coremap[..])[frame := coremap[frame]];
    }

    /** The page of `r` has a second-level table, and can be found. */
    ghost predicate CanFind(r: Ref, n: nat)
      reads coremap, pgdir, physmem, swap, swap.swapmap.v
      reads lru, lru.above, lru.below, fifo, fifo.above, clock
    {
      && Wired() && swap.Valid() && Ready(Call(algorithm, Now(), n, PolicyView(), r))
      && var q := PageOf(r);
         && Entry(pgdir[..], q).num < memsize
         && if Entry(pgdir[..], q).valid then !Entry(pgdir[..], q).onswap && CanRef(Entry(pgdir[..], q).num)
            else CanFault(q, n)
    }

    /** A reference that misses, with its counters. */
    method Miss(r: Ref, draw: nat, ghost n: nat) returns (ghost a: Alloc, ghost claimed: Snap)
      requires CanFind(r, n) && !Entry(pgdir[..], PageOf(r)).valid
      modifies this`missCount, this`refCount, this`evictCleanCount, this`evictDirtyCount
      modifies coremap, pgdir, physmem, swap, swap.swapmap.v, lru, lru.above, lru.below, fifo, fifo.above, clock
      ensures swap.Valid() && CanMark(PageOf(r))
      ensures Settles(Call(algorithm, old(Now()), n, old(PolicyView()), r), a, claimed, Now(), PolicyView(),
                   old(Counters()), Counters())
    {
      hide CanMark, CanFault, Settles, Faulted, Picked;
      ghost var c, counts := Call(algorithm, Now(), n, PolicyView(), r), Counters();
      a, claimed := Fault(PageOf(r), r.vaddr, draw, n);
      refCount := refCount + 1;
      MissSettles(c, a, claimed, Now(), PolicyView(), counts, Counters());
    }

    /** The three-way branch of find_physpage, with its counters. */
    method Locate(r: Ref, draw: nat, ghost n: nat) returns (ghost a: Alloc, ghost claimed: Snap)
      requires CanFind(r, n)
      modifies this`hitCount, this`missCount, this`refCount, this`evictCleanCount, this`evictDirtyCount
      modifies coremap, pgdir, physmem, swap, swap.swapmap.v, lru, lru.above, lru.below, fifo, fifo.above, clock
      ensures swap.Valid() && CanMark(PageOf(r))
      ensures Settles(Call(algorithm, old(Now()), n, old(PolicyView()), r), a, claimed, Now(), PolicyView(),
                   old(Counters()), Counters())
    {
      hide Settles;
      var e := Entry(pgdir[..], PageOf(r));
      var valid := PteWord.Test(e, PteWord.PG_VALID);
      if !valid {
        a, claimed := Miss(r, draw, n);
      } else {
        var onswap := PteWord.Test(e, PteWord.PG_ONSWAP);
        assert !onswap;
        ghost var c, counts := Call(algorithm, Now(), n, PolicyView(), r), Counters();
        hitCount := hitCount + 1;
        refCount := refCount + 1;
        a, claimed := Alloc(0, [], Now(), 0), Now();
        HitSettles(c, a, claimed, Now(), PolicyView(), counts, Counters());
      }
    }

    /** LRU with a single frame cannot evict. */
    ghost predicate CanServe(q: nat)
      reads this`used, this`mem
    {
      algorithm.Lru? && memsize == 1 ==> used == 0 || q in mem.resident
    }

    /** With a single frame under LRU, a page that is neither resident nor the first one
        can not be served: its fault finds the frame in use, and then lru_evict reads
        through `frame_above` of that frame, which is null. */
    lemma OneFrame(q: nat)
      requires Valid() && algorithm.Lru? && memsize == 1 && q < PAGES
      ensures CanServe(q) <==> !coremap[0].inUse || Entry(pgdir[..], q).valid
      ensures coremap[0].inUse ==> lru.bottom == 0 && lru.above[0] == LruList.NULL
    {
      var m := Now();
      assert FrameOk(m, used, NONE, 0);
      assert q in mem.cells <==> Paging.Touched(m.dir, q);
      if used == 1 {
        Residents.OrdersAll(lru.order, 1, 0);
        lru.EvictNeedsTwo();
      }
    }

    /** Between accesses, a reference to a page with a second-level table can be served. */
    lemma CanBegin(r: Ref)
      requires Valid() && r.vaddr < ADDRESSES && HasTable(pgdir[..], PageOf(r)) && CanServe(PageOf(r))
      ensures CanFind(r, used)
    {
      var m := Now();
      InvParts(m, used, mem.cells, PageOf(r));
      GoneAgrees(m, used, mem, PageOf(r));
      if used == memsize {
        InUseIsFull(m, used, mem.cells);
      }
    }

    /** The tail of find_physpage: marks the page and calls the policy's hook. */
    method MarkAndRef(q: nat, vaddr: nat, write: bool) returns (frame: nat)
      requires swap.Valid() && CanMark(q)
      modifies pgdir, coremap, lru, lru.above, lru.below, fifo, fifo.above, clock
      ensures swap.Valid() && Steady()
      ensures Marked(old(Now()), q, vaddr, write, Now()) && Entry(Now().dir, q).num == frame
      ensures Referenced(algorithm, old(PolicyView()), PolicyView(), frame) && WellShaped(Now())
    {
      frame := Mark(q, vaddr, write);
      ghost var m := Now();
      RefFcn(frame);
      assert Now() == m;
    }

    /** find_physpage once the directory entry is valid. */
    method Translate(r: Ref, draw: nat, ghost n: nat) returns (frame: nat, ghost a: Alloc)
      requires CanFind(r, n)
      modifies this`hitCount, this`missCount, this`refCount, this`evictCleanCount, this`evictDirtyCount
      modifies coremap, pgdir, physmem, swap, swap.swapmap.v, lru, lru.above, lru.below, fifo, fifo.above, clock
      ensures swap.Valid() && Steady()
      ensures Ends(Call(algorithm, old(Now()), n, old(PolicyView()), r), a, Now(), PolicyView(), frame,
                   old(Counters()), Counters())
    {
      hide CanMark, Settles, Ends, Marked, Referenced;
      ghost var c, counts := Call(algorithm, Now(), n, PolicyView(), r), Counters();
      ghost var claimed;
      a, claimed := Locate(r, draw, n);
      ghost var m1, v1 := Now(), PolicyView();
      frame := MarkAndRef(PageOf(r), r.vaddr, IsWrite(r));
      CallEnds(c, a, claimed, m1, v1, Now(), PolicyView(), frame, counts, Counters());
    }

    /** The directory lookup of find_physpage. */
    method OpenTable(q: nat)
      requires Valid() && q < PAGES
      modifies pgdir
      ensures Valid() && Opened(old(Now()), q, Now()) && State() == old(State()).(m := Now())
    {
      ghost var w := State();
      EnsureTable(q);
      OpenSane(algorithm, w, q, Now());
    }

    ghost method Record(n: nat, mem: L.Mem)
      requires Wired() && swap.Valid() && Steady() && Sane(algorithm, Whole(Now(), n, mem, PolicyView()))
      modifies this`used, this`mem
      ensures Valid() && Counters() == old(Counters())
      ensures State() == Whole(old(Now()), n, mem, old(PolicyView()))
    {
      this.used, this.mem := n, mem;
    }

    /** find_physpage once the page has a second-level table. */
    method Serve(r: Ref, draw: nat) returns (frame: nat, ghost victim: Option<nat>)
      requires Valid() && r.vaddr < ADDRESSES && HasTable(pgdir[..], PageOf(r)) && CanServe(PageOf(r))
      modifies this
      modifies coremap, pgdir, physmem, swap, swap.swapmap.v, lru, lru.above, lru.below, fifo, fifo.above, clock
      ensures Valid()
      ensures Served(algorithm, old(State()), r, State(), frame, victim)
      ensures Counters() == L.Tick(old(Counters()), PageOf(r) in old(mem).resident, L.WasDirty(old(mem), victim))
    {
      ghost var w := State();
      ghost var c := Call(algorithm, w.m, w.n, w.v, r);
      CanBegin(r);
      ghost var a;
      frame, a := Translate(r, draw, used);
      assert Ends(c, a, Now(), PolicyView(), frame, old(Counters()), Counters());
      victim := CallVictim(c, a);
      ghost var w' := Whole(Now(), UsedAfter(c), Fetched(w.mem, r, victim, w.m.slots), PolicyView());
      CallServes(c, w.mem, a, Now(), PolicyView(), frame, w');
      CallTicks(c, w.mem, a, w', frame);
      Record(w'.n, w'.mem);
    }

    /** Finds the frame of a page, faulting it in if needed; the result is the
        position of the frame in physical memory. */
    method FindPhyspage(vaddr: nat, kind: char, draw: nat) returns (memptr: nat, ghost victim: Option<nat>)
      requires Valid() && vaddr < ADDRESSES && CanServe(vaddr / PAGE_SIZE)
      modifies this
      modifies coremap, pgdir, physmem, swap, swap.swapmap.v, lru, lru.above, lru.below, fifo, fifo.above, clock
      ensures Valid()
      ensures memptr % SIMPAGESIZE == 0
      ensures Served(algorithm, old(State()), Ref(kind, vaddr), State(), memptr / SIMPAGESIZE, victim)
      ensures Counters() == L.Tick(old(Counters()), vaddr / PAGE_SIZE in old(mem).resident, L.WasDirty(old(mem),
              victim))
    {
      var r := Ref(kind, vaddr);
      ghost var w := State();
      OpenTable(PageOf(r));
      ghost var m1 := Now();
      var frame;
      frame, victim := Serve(r, draw);
      memptr := frame * SIMPAGESIZE;
      FramePosition(frame);
      ServedFromTable(algorithm, w, r, m1, State(), frame, victim);
    }

    /** `(*versionptr)++`. */
    method IncrementVersion(memptr: nat)
      requires Wired() && swap.Valid() && memptr % SIMPAGESIZE == 0 && memptr / SIMPAGESIZE < memsize
      modifies physmem
      ensures var f := memptr / SIMPAGESIZE;
              Now() == old(Now()).(mem := Overwrite(old(physmem[..]), 16 * f, Bumped(FrameBytes(old(physmem[..]), f))))
    {
      BumpWritten(physmem[..], memptr / SIMPAGESIZE);
      Store(physmem, memptr, ToBytes((Version(FrameBytes(physmem[..], memptr / SIMPAGESIZE)) + 1) % WORD, 4));
    }

    /** The version word of a page that was found for writing is incremented. */
    method BumpVersion(q: nat, memptr: nat)
      requires Valid() && memptr % SIMPAGESIZE == 0 && Resident(Now(), q, memptr / SIMPAGESIZE, true)
      requires q in mem.cells
      modifies this`mem, this`used, physmem
      ensures Valid() && State() == Whole(Now(), old(used), Written(old(mem), q), old(PolicyView()))
      ensures WellShaped(Now()) && Now() == old(Now()).(mem := physmem[..])
      ensures Counters() == old(Counters())
    {
      ghost var w := State();
      hide Sane, BumpState;
      IncrementVersion(memptr);
      ResidentBumped(w.m, q, memptr / SIMPAGESIZE, Now());
      ghost var w' := Whole(Now(), used, Written(mem, q), PolicyView());
      WrittenSane(algorithm, w, q, w');
      Record(used, w'.mem);
    }

    /** One reference of the trace.  `seen` is what the address check and the
        version word showed. */
    method AccessMem(r: Ref, draw: nat) returns (seen: Seen, ghost victim: Option<nat>)
      requires Valid() && r.vaddr < ADDRESSES && CanServe(PageOf(r))
      modifies this
      modifies coremap, pgdir, physmem, swap, swap.swapmap.v, lru, lru.above, lru.below, fifo, fifo.above, clock
      ensures Valid()
      ensures Accessed(algorithm, old(State()), r, State(), seen, victim)
      ensures EntryAfter(old(pgdir[..]), pgdir[..], r.vaddr / 4096, r.kind)
      ensures Counters() == L.Tick(old(Counters()), PageOf(r) in old(mem).resident, L.WasDirty(old(mem), victim))
    {
      ghost var w := State();
      var memptr;
      memptr, victim := FindPhyspage(r.vaddr, r.kind, draw);
      ghost var w1 := State();
      ServedPage(algorithm, w, r, w1, memptr / SIMPAGESIZE, victim);
      FetchedWritten(w.mem, r, victim, w.m.slots);
      var page := FrameBytes(physmem[..], memptr / SIMPAGESIZE);
      seen := Seen(Address(page) == r.vaddr, Version(page));
      if IsWrite(r) {
        BumpVersion(PageOf(r), memptr);
      }
      AccessDone(algorithm, w, r, w1, memptr / SIMPAGESIZE, victim, seen, State());
      AccessedEntry(algorithm, w, r, State(), seen, victim);
    }

    // ----- a whole trace

    /** Line `i` of the trace. */
    method ReplayLine(ghost trace: seq<Ref>, ghost i: nat, r: Ref, draw: nat, ghost log: seq<Seen>,
                      ghost victims: seq<Option<nat>>)
      returns (ghost log': seq<Seen>, ghost victims': seq<Option<nat>>)
      requires Valid() && i < |trace| && r == trace[i] && r.vaddr < ADDRESSES
      requires algorithm.Lru? && memsize == 1 ==> |FlatMemory.Touched(trace)| <= 1
      requires Replayed(algorithm, trace[..i], State(), log, victims, Counters())
      modifies this
      modifies coremap, pgdir, physmem, swap, swap.swapmap.v, lru, lru.above, lru.below, fifo, fifo.above, clock
      ensures Valid()
      ensures Replayed(algorithm, trace[..i + 1], State(), log', victims', Counters())
    {
      if algorithm.Lru? && memsize == 1 {
        OnePageServed(algorithm, trace, i, State(), log, victims, Counters());
      }
      ghost var w, counts := State(), Counters();
      ghost var seen, victim;
      seen, victim := AccessMem(r, draw);
      ReplayNext(algorithm, trace, i, w, log, victims, counts, State(), seen, victim);
      log', victims' := log + [seen], victims + [victim];
    }

    /** Replays a trace from the start of the simulation; `draws` is what random()
        returns.  `log` is what the references showed and `victims` the pages evicted
        for them. */
    method ReplayTrace(trace: seq<Ref>, draws: seq<nat>)
      returns (ghost log: seq<Seen>, ghost victims: seq<Option<nat>>)
      requires Valid() && used == 0 && mem == L.EMPTY && Counters() == NO_COUNTS
      requires |draws| == |trace| && forall i | 0 <= i < |trace| :: trace[i].vaddr < ADDRESSES
      requires algorithm.Lru? && memsize == 1 ==> |FlatMemory.Touched(trace)| <= 1
      modifies this
      modifies coremap, pgdir, physmem, swap, swap.swapmap.v, lru, lru.above, lru.below, fifo, fifo.above, clock
      ensures Valid()
      ensures Replayed(algorithm, trace, State(), log, victims, Counters())
    {
      log, victims := [], [];
      ReplayStart(algorithm, State());
      var i := 0;
      while i < |trace|
        invariant i <= |trace|
        invariant Valid()
        invariant Replayed(algorithm, trace[..i], State(), log, victims, Counters())
      {
        log, victims := ReplayLine(trace, i, trace[i], draws[i], log, victims);
        i := i + 1;
      }
      assert trace[..i] == trace;
    }

    /** What a replay says of the memory, in the terms of the simulator. */
    lemma MemoryAccount(trace: seq<Ref>, slots: nat, log: seq<Seen>, victims: seq<Option<nat>>)
      requires swap.Valid() && slots == swap.swapmap.nbits
      requires Replayed(algorithm, trace, State(), log, victims, Counters())
      ensures Losses.AllMatch(log) <==> Losses.OneAddress(trace) && Losses.Unharmed(trace, victims, slots)
      ensures Losses.OneAddress(trace) ==> (log == Log(trace) <==> Losses.Unharmed(trace, victims, slots))
      ensures |FlatMemory.Touched(trace)| <= slots ==> log == Log(trace)
      ensures var evicted := |Losses.EvictedPages(victims)|;
              |Losses.Lost(mem, slots)| == if evicted <= slots then 0 else evicted - slots
    {
      ReplayedMemory(algorithm, trace, State(), log, victims, Counters());
    }

    /** What a replay says of the policy and the counters. */
    lemma CountAccount(trace: seq<Ref>, log: seq<Seen>, victims: seq<Option<nat>>)
      requires swap.Valid() && coremap.Length == memsize
      requires Replayed(algorithm, trace, State(), log, victims, Counters())
      ensures 0 < memsize && |victims| == |trace|
      ensures !algorithm.Rand? ==> victims == Victims(algorithm, Pages(trace), memsize)
      ensures !algorithm.Rand? ==> missCount == Misses(algorithm, Pages(trace), memsize)
      ensures hitCount + missCount == refCount == |trace|
      ensures missCount == |mem.resident| + evictCleanCount + evictDirtyCount
      ensures evictDirtyCount == |Losses.DirtyEvictions(trace, victims)|
      ensures evictCleanCount == |Losses.CleanEvictions(trace, victims)|
    {
      ReplayedCounts(algorithm, trace, State(), log, victims, Counters());
    }

    /** With a single frame under LRU, after references to one page only. */
    lemma SecondPageMeets(trace: seq<Ref>, i: nat, log: seq<Seen>, victims: seq<Option<nat>>)
      requires Valid() && algorithm.Lru? && memsize == 1 && 0 < i < |trace| && PageOf(trace[i]) < PAGES
      requires Replayed(Lru, trace[..i], State(), log, victims, Counters())
      requires forall j | 0 <= j < i :: PageOf(trace[j]) == PageOf(trace[0]) != PageOf(trace[i])
      ensures coremap[0].inUse && !Entry(pgdir[..], PageOf(trace[i])).valid
      ensures lru.bottom == 0 && lru.above[0] == LruList.NULL
    {
      SecondPage(Lru, trace, i, State(), log, victims, Counters());
      OneFrame(PageOf(trace[i]));
    }
  }

  /** The whole program: a fresh simulator replays a trace. */
  method Simulate(memsize: nat, swapsize: nat, algorithm: Algorithm, trace: seq<Ref>, draws: seq<nat>)
    returns (sim: Simulator, ghost log: seq<Seen>, ghost victims: seq<Option<nat>>)
    requires 0 < memsize <= 0x10_0000
    requires algorithm.Lru? && memsize == 1 ==> |FlatMemory.Touched(trace)| <= 1
    requires |draws| == |trace| && forall i | 0 <= i < |trace| :: trace[i].vaddr < ADDRESSES
    ensures sim.Valid() && sim.memsize == memsize && sim.algorithm == algorithm && sim.swap.swapmap.nbits == swapsize
    ensures Replayed(algorithm, trace, sim.State(), log, victims, sim.Counters())
    ensures Losses.AllMatch(log) <==> Losses.OneAddress(trace) && Losses.Unharmed(trace, victims, swapsize)
    ensures Losses.OneAddress(trace) ==> (log == Log(trace) <==> Losses.Unharmed(trace, victims, swapsize))
    ensures |FlatMemory.Touched(trace)| <= swapsize ==> log == Log(trace)
    ensures var evicted := |Losses.EvictedPages(victims)|;
            |Losses.Lost(sim.mem, swapsize)| == if evicted <= swapsize then 0 else evicted - swapsize
    ensures !algorithm.Rand? ==> victims == Victims(algorithm, Pages(trace), memsize)
    ensures !algorithm.Rand? ==> sim.missCount == Misses(algorithm, Pages(trace), memsize)
    ensures sim.hitCount + sim.missCount == sim.refCount == |trace|
    ensures sim.missCount == |sim.mem.resident| + sim.evictCleanCount + sim.evictDirtyCount
    ensures sim.evictDirtyCount == |Losses.DirtyEvictions(trace, victims)|
    ensures sim.evictCleanCount == |Losses.CleanEvictions(trace, victims)|
  {
    sim := new Simulator(memsize, swapsize, algorithm);
    log, victims := sim.ReplayTrace(trace, draws);
    sim.MemoryAccount(trace, swapsize, log, victims);
    sim.CountAccount(trace, log, victims);
  }

  /** LRU with a single frame: any trace that touches two pages comes to a reference `i`
      whose page is not resident, with the frame in use and a null link to follow. */
  method MeetNullLink(swapsize: nat, trace: seq<Ref>, draws: seq<nat>)
    returns (sim: Simulator, i: nat, ghost log: seq<Seen>, ghost victims: seq<Option<nat>>)
    requires 2 <= |FlatMemory.Touched(trace)|
    requires |draws| == |trace| && forall i | 0 <= i < |trace| :: trace[i].vaddr < ADDRESSES
    ensures sim.Valid() && sim.memsize == 1 && sim.algorithm == Lru && sim.swap.swapmap.nbits == swapsize
    ensures i < |trace| && Replayed(Lru, trace[..i], sim.State(), log, victims, sim.Counters())
    ensures sim.coremap[0].inUse && !Entry(sim.pgdir[..], PageOf(trace[i])).valid
    ensures sim.lru.bottom == 0 && sim.lru.above[0] == LruList.NULL
  {
    i := 0;
    while i < |trace| && PageOf(trace[i]) == PageOf(trace[0])
      invariant i <= |trace| && forall j | 0 <= j < i :: PageOf(trace[j]) == PageOf(trace[0])
    {
      i := i + 1;
    }
    OnePageBefore(trace, i);
    sim := new Simulator(1, swapsize, Lru);
    log, victims := sim.ReplayTrace(trace[..i], draws[..i]);
    sim.SecondPageMeets(trace, i, log, victims);
  }
}

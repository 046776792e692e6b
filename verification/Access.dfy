/** One call of find_physpage, put together from its steps, on snapshots. */
module Access {
  import opened Options
  import opened PageBytes
  import opened PageTable
  import opened FlatMemory
  import opened Paging
  import opened Residents
  import opened PolicySteps
  import ClockHand

  ghost predicate SlotsFull(m: Snap) {
    forall i: nat | i < m.slots :: i in m.used
  }

  /** Whether the page of entry `e` has a slot or can get one. */
  predicate CanSave(e: Pte, full: bool) {
    e.swapOff != INVALID_SWAP || !full
  }

  /** With free frames the policy is not asked.  Without, it chose the victim, which
      went to a slot exactly when it had one or one was free. */
  ghost predicate Picked(alg: Algorithm, m: Snap, n: nat, v: View, a: Alloc, v1: View) {
    && WellShaped(m) && n <= |m.cm| && a.frame < |m.cm|
    && if n < |m.cm| then v1 == v
       else
         && Chosen(alg, v, v1, a.frame)
         && Shaped(a.swept) && m.cm[a.frame].pte < PAGES
         && (a.at == INVALID_SWAP <==> !CanSave(Entry(a.swept, m.cm[a.frame].pte), SlotsFull(m)))
         && (alg.Clock? ==> ClockHand.Swept(m.cm, m.dir, v.hand, a.frame, a.swept))
  }

  /** With every frame in use: the policy chose a victim and its frame was emptied. */
  ghost predicate Emptied(alg: Algorithm, m: Snap, v: View, a: Alloc, v1: View) {
    && WellShaped(m) && ClockHand.SameButRefs(m.dir, a.swept)
    && SlotFor(m.(dir := a.swept), a.frame, a.at)
    && a.hollow == Evicted(m.(dir := a.swept), a.frame, a.at)
    && Picked(alg, m, |m.cm|, v, a, v1)
  }

  /** The page of any frame is still there after the reference bits were swept. */
  lemma SweptFrame(m: Snap, swept: Directory, frame: nat)
    requires ClockHand.Full(m.cm, m.dir) && ClockHand.SameButRefs(m.dir, swept) && SlotsSane(m) && frame < |m.cm|
    ensures Shaped(swept) && m.cm[frame].pte < PAGES && SlotsSane(m.(dir := swept))
    ensures Entry(swept, m.cm[frame].pte).valid && Entry(swept, m.cm[frame].pte).num < |m.cm|
  {
  }

  /** The policy chose `frame`, and its page was written out. */
  lemma EmptiedBy(alg: Algorithm, m: Snap, v: View, frame: nat, swept: Directory, hollow: Snap, at: int, v1: View)
    requires ClockHand.Full(m.cm, m.dir) && |m.cm| <= 0x10_0000 && |m.mem| == 16 * |m.cm| && frame < |m.cm|
    requires ClockHand.SameButRefs(m.dir, swept) && Chosen(alg, v, v1, frame)
    requires alg.Clock? ==> ClockHand.Swept(m.cm, m.dir, v.hand, frame, swept)
    requires SlotFor(m.(dir := swept), frame, at) && hollow == Evicted(m.(dir := swept), frame, at)
    requires at == INVALID_SWAP <==> !CanSave(Entry(swept, m.cm[frame].pte), SlotsFull(m.(dir := swept)))
    ensures Emptied(alg, m, v, Alloc(frame, swept, hollow, at), v1)
    ensures Shaped(m.dir) && m.cm[frame].pte < PAGES
    ensures DirtyOf(m, Some(m.cm[frame].pte)) == DirtyOf(m.(dir := swept), Some(m.cm[frame].pte))
  {
  }

  lemma EmptiedEntry(alg: Algorithm, m: Snap, v: View, a: Alloc, v1: View, q: nat)
    requires Emptied(alg, m, v, a, v1) && SlotsSane(m) && q < PAGES && !Entry(m.dir, q).valid && HasTable(m.dir, q)
    ensures WellShaped(a.hollow) && a.frame < |a.hollow.cm|
    ensures Entry(a.hollow.dir, q).swapOff == INVALID_SWAP || Entry(a.hollow.dir, q).swapOff >= 0
  {
    HollowEntry(m, a, q);
  }

  lemma EmptiedFilled(alg: Algorithm, m: Snap, v: View, a: Alloc, v1: View, q: nat, m': Snap)
    requires Emptied(alg, m, v, a, v1) && q < PAGES && WellShaped(a.hollow) && a.frame < |a.hollow.cm|
    requires m' == Refilled(a.hollow, a.frame, q)
    ensures Allocated(m, |m.cm|, q, a, m') && Picked(alg, m, |m.cm|, v, a, v1)
  {
  }

  /** After both branches of a miss (A3/pagetable.c:213-225): page `q` has a frame,
      and its entry names it with no flag but, for a new page, dirty. */
  ghost predicate Faulted(m: Snap, n: nat, q: nat, a: Alloc, claimed: Snap, vaddr: nat, m1: Snap) {
    && Allocated(m, n, q, a, claimed) && HasTable(claimed.dir, q)
    && var e := Entry(m.dir, q);
       m1 == claimed.(dir := SetEntry(claimed.dir, q, Pte(a.frame, false, !e.onswap, false, false, e.swapOff)),
                      mem := InitFrame(claimed.mem, a.frame, !e.onswap, vaddr))
  }

  /** The page was installed in the frame allocated for it. */
  lemma FaultedBy(m: Snap, n: nat, q: nat, a: Alloc, claimed: Snap, vaddr: nat, m1: Snap)
    requires Allocated(m, n, q, a, claimed) && HasTable(claimed.dir, q)
    requires var e := Entry(m.dir, q);
             m1 == claimed.(dir := SetEntry(claimed.dir, q, Pte(a.frame, false, !e.onswap, false, false, e.swapOff)),
                            mem := InitFrame(claimed.mem, a.frame, !e.onswap, vaddr))
    ensures Faulted(m, n, q, a, claimed, vaddr, m1)
    ensures WellShaped(m1) && HasTable(m1.dir, q) && Entry(m1.dir, q).num == a.frame
  {
    var e := Entry(m.dir, q);
    SetEntryFacts(claimed.dir, q, Pte(a.frame, false, !e.onswap, false, false, e.swapOff));
  }

  lemma FaultedMarked(m: Snap, n: nat, q: nat, a: Alloc, claimed: Snap, vaddr: nat, write: bool, m1: Snap, m': Snap)
    requires Faulted(m, n, q, a, claimed, vaddr, m1) && HasTable(a.hollow.dir, q)
    requires Marked(m1, q, vaddr, write, m')
    ensures Missed(m, n, q, a, vaddr, write, m') && Entry(m1.dir, q).num == a.frame
  {
    var e := Entry(m.dir, q);
    var first := Pte(a.frame, false, !e.onswap, false, false, e.swapOff);
    SetEntryFacts(claimed.dir, q, first);
    SetEntryTwice(claimed.dir, q, first, LoadedEntry(a.frame, !e.onswap, write, e.swapOff));
    assert m'.cm == m.cm[a.frame := Frame(true, q, vaddr)];
  }

  /** A call of find_physpage for reference `r`, in state `m` with `n` frames in use. */
  datatype Call = Call(alg: Algorithm, m: Snap, n: nat, v: View, r: Ref)

  /** Its page has a second-level table. */
  ghost predicate Ready(c: Call) {
    WellShaped(c.m) && c.r.vaddr < ADDRESSES && PageOf(c.r) < PAGES && HasTable(c.m.dir, PageOf(c.r))
  }

  ghost predicate IsHit(c: Call)
    requires Ready(c)
  {
    Entry(c.m.dir, PageOf(c.r)).valid
  }

  /** After the three-way branch of find_physpage: nothing has changed on a hit, and
      on a miss `m1` and `v1` are the outcome of the fault. */
  ghost predicate Located(c: Call, a: Alloc, claimed: Snap, m1: Snap, v1: View)
    requires Ready(c)
  {
    if IsHit(c) then m1 == c.m && v1 == c.v
    else
      && Faulted(c.m, c.n, PageOf(c.r), a, claimed, c.r.vaddr, m1)
      && Picked(c.alg, c.m, c.n, c.v, a, v1)
  }

  ghost function UsedAfter(c: Call): nat
    requires Ready(c)
  {
    if IsHit(c) then c.n else AfterMiss(c.m, c.n)
  }

  /** The page the call evicts, if any. */
  ghost function CallVictim(c: Call, a: Alloc): Option<nat>
    requires Ready(c) && (IsHit(c) || a.frame < |c.m.cm|)
  {
    if IsHit(c) then None else Victim(c.m, c.n, a)
  }

  /** Whether the page `victim` is dirty. */
  ghost function DirtyOf(m: Snap, victim: Option<nat>): Option<bool>
    requires Shaped(m.dir)
  {
    if victim.None? || victim.value >= PAGES then None else Some(Entry(m.dir, victim.value).dirty)
  }

  /** The whole call, which ends in `m'` and `v'`. */
  ghost predicate Called(c: Call, a: Alloc, m': Snap, v': View, frame: nat) {
    && Ready(c) && Shaped(m'.dir) && Entry(m'.dir, PageOf(c.r)).num == frame
    && exists claimed, m1, v1 ::
         && Located(c, a, claimed, m1, v1)
         && Marked(m1, PageOf(c.r), c.r.vaddr, IsWrite(c.r), m')
         && Referenced(c.alg, v1, v', frame)
  }

  lemma CalledBy(c: Call, a: Alloc, claimed: Snap, m1: Snap, v1: View, m': Snap, v': View, frame: nat)
    requires Ready(c) && Located(c, a, claimed, m1, v1)
    requires Marked(m1, PageOf(c.r), c.r.vaddr, IsWrite(c.r), m') && Entry(m'.dir, PageOf(c.r)).num == frame
    requires Referenced(c.alg, v1, v', frame)
    ensures Called(c, a, m', v', frame)
  {
  }

  /** Both ways a call can go, each ending in `m'`. */
  ghost predicate Went(c: Call, a: Alloc, claimed: Snap, m': Snap) {
    && Ready(c)
    && if IsHit(c) then Marked(c.m, PageOf(c.r), c.r.vaddr, IsWrite(c.r), m')
       else
         && Allocated(c.m, c.n, PageOf(c.r), a, claimed)
         && Missed(c.m, c.n, PageOf(c.r), a, c.r.vaddr, IsWrite(c.r), m')
  }

  lemma CallWent(c: Call, a: Alloc, claimed: Snap, m1: Snap, v1: View, m': Snap)
    requires Ready(c) && Located(c, a, claimed, m1, v1)
    requires Marked(m1, PageOf(c.r), c.r.vaddr, IsWrite(c.r), m')
    ensures Went(c, a, claimed, m')
    ensures Entry(m1.dir, PageOf(c.r)).num == if IsHit(c) then Entry(c.m.dir, PageOf(c.r)).num else a.frame
  {
    if !IsHit(c) {
      AllocatedEntry(c.m, c.n, PageOf(c.r), a, claimed);
      FaultedMarked(c.m, c.n, PageOf(c.r), a, claimed, c.r.vaddr, IsWrite(c.r), m1, m');
    }
  }

  /** A whole call keeps the invariant, and the page arrives. */
  lemma CallKeeps(c: Call, flat: Flat, a: Alloc, claimed: Snap, m': Snap)
    requires Inv(c.m, c.n, NONE, flat) && Went(c, a, claimed, m')
    ensures IsHit(c) || a.frame < |c.m.cm|
    ensures var q := PageOf(c.r);
            Inv(m', UsedAfter(c), NONE, Arrived(flat, q, c.r.vaddr, Gone(c.m.dir, q), CallVictim(c, a)))
  {
    var q := PageOf(c.r);
    if IsHit(c) {
      HitKeeps(c.m, c.n, flat, q, c.r.vaddr, IsWrite(c.r), m');
      InvParts(c.m, c.n, flat, q);
      assert flat[q := flat[q]] == flat;
    } else {
      MissKeeps(c.m, c.n, flat, q, a, claimed, c.r.vaddr, IsWrite(c.r), m');
    }
  }

  lemma HitCallFollows(c: Call, flat: Flat, m': Snap, v': View)
    requires Inv(c.m, c.n, NONE, flat) && Sound(c.alg, c.m, c.n, c.v) && Ready(c) && IsHit(c)
    requires Marked(c.m, PageOf(c.r), c.r.vaddr, IsWrite(c.r), m')
    requires Referenced(c.alg, c.v, v', Entry(c.m.dir, PageOf(c.r)).num)
    ensures Follows(c.alg, c.m, c.n, c.v, m', c.n, v', PageOf(c.r))
  {
    var q := PageOf(c.r);
    var e := Entry(c.m.dir, q);
    assert EntryOk(c.m, c.n, NONE, q);
    assert FrameOk(c.m, c.n, NONE, e.num);
    SetEntryFacts(c.m.dir, q, e.(valid := true, ref := true, dirty := e.dirty || IsWrite(c.r)));
    forall g | 0 <= g < c.n && g != e.num
      ensures Entry(m'.dir, c.m.cm[g].pte) == Entry(c.m.dir, c.m.cm[g].pte)
    {
      assert FrameOk(c.m, c.n, NONE, g);
    }
    HitFollows(c.alg, c.m, c.n, c.v, m', v', e.num);
  }

  /** What a miss does to the entries of the pages in frames. */
  lemma MissedFrames(m: Snap, n: nat, flat: Flat, q: nat, a: Alloc, claimed: Snap, vaddr: nat, write: bool, m': Snap)
    requires Inv(m, n, NONE, flat) && Allocated(m, n, q, a, claimed) && Missed(m, n, q, a, vaddr, write, m')
    requires !Entry(m.dir, q).valid
    ensures WellShaped(m') && Loads(m.cm, m'.cm, a.frame, q) && Entry(m'.dir, q).ref
    ensures forall g | 0 <= g < n :: m.cm[g].pte < PAGES && m.cm[g].pte != q
    ensures n < |m.cm| ==> forall g | 0 <= g < n :: Entry(m'.dir, m.cm[g].pte) == Entry(m.dir, m.cm[g].pte)
    ensures n == |m.cm| ==> Shaped(a.swept)
    ensures n == |m.cm| ==> forall g | 0 <= g < n && g != a.frame ::
              Entry(m'.dir, m.cm[g].pte) == Entry(a.swept, m.cm[g].pte)
  {
    var e := Entry(m.dir, q);
    InvPaged(m, n, flat);
    InvAbsent(m, n, flat, q);
    SetEntryFacts(a.hollow.dir, q, LoadedEntry(a.frame, !e.onswap, write, e.swapOff));
    if n == |m.cm| {
      var p := m.cm[a.frame].pte;
      SetEntryFacts(a.swept, p, Entry(a.swept, p).(onswap := true, valid := false, swapOff := a.at));
    }
  }

  lemma MissCallFollows(c: Call, flat: Flat, a: Alloc, claimed: Snap, m': Snap, v1: View, v': View)
    requires Inv(c.m, c.n, NONE, flat) && Sound(c.alg, c.m, c.n, c.v) && Ready(c) && !IsHit(c)
    requires Allocated(c.m, c.n, PageOf(c.r), a, claimed)
    requires Missed(c.m, c.n, PageOf(c.r), a, c.r.vaddr, IsWrite(c.r), m')
    requires Picked(c.alg, c.m, c.n, c.v, a, v1) && Referenced(c.alg, v1, v', a.frame)
    ensures Follows(c.alg, c.m, c.n, c.v, m', AfterMiss(c.m, c.n), v', PageOf(c.r))
  {
    MissedFrames(c.m, c.n, flat, PageOf(c.r), a, claimed, c.r.vaddr, IsWrite(c.r), m');
    if c.n < |c.m.cm| {
      AllocatedNext(c.m, c.n, PageOf(c.r), a, claimed);
      AppendFollows(c.alg, c.m, c.n, c.v, m', v', PageOf(c.r));
    } else {
      EvictFollows(c.alg, c.m, c.v, a.swept, v1, m', v', a.frame, PageOf(c.r));
    }
  }

  lemma AllocatedNext(m: Snap, n: nat, q: nat, a: Alloc, m': Snap)
    requires Allocated(m, n, q, a, m') && n < |m.cm|
    ensures a.frame == n
  {
  }

  /** A whole call takes the policy one step. */
  lemma CallFollows(c: Call, flat: Flat, a: Alloc, claimed: Snap, m1: Snap, v1: View, m': Snap, v': View, frame: nat)
    requires Inv(c.m, c.n, NONE, flat) && Sound(c.alg, c.m, c.n, c.v) && Ready(c)
    requires Located(c, a, claimed, m1, v1) && Went(c, a, claimed, m')
    requires frame == if IsHit(c) then Entry(c.m.dir, PageOf(c.r)).num else a.frame
    requires Referenced(c.alg, v1, v', frame)
    ensures Follows(c.alg, c.m, c.n, c.v, m', UsedAfter(c), v', PageOf(c.r))
  {
    if IsHit(c) {
      HitCallFollows(c, flat, m', v');
    } else {
      MissCallFollows(c, flat, a, claimed, m', v1, v');
    }
  }

  /** Allocating a second-level table is no step of the policy. */
  lemma FollowsFromTable(alg: Algorithm, m: Snap, n: nat, v: View, m1: Snap, m': Snap, n': nat, v': View, q: nat)
    requires WellShaped(m) && WellShaped(m1) && m1.cm == m.cm
    requires forall r: nat | r < PAGES :: Entry(m1.dir, r) == Entry(m.dir, r)
    requires Follows(alg, m1, n, v, m', n', v', q)
    ensures Follows(alg, m, n, v, m', n', v', q)
  {
    if alg.Clock? {
      assert ClockOf(m.cm, m.dir, n, v.hand).refs == ClockOf(m1.cm, m1.dir, n, v.hand).refs;
    }
  }

  lemma FollowsOtherMemory(alg: Algorithm, m: Snap, n: nat, v: View, m1: Snap, m': Snap, n': nat, v': View, q: nat)
    requires Follows(alg, m, n, v, m1, n', v', q) && WellShaped(m') && m'.cm == m1.cm && m'.dir == m1.dir
    ensures Follows(alg, m, n, v, m', n', v', q)
  {
  }

  // ----- what the caller gets

  /** Page `q` is in frame `frame`, and may be written if that was asked. */
  ghost predicate Resident(m: Snap, q: nat, frame: nat, write: bool) {
    && WellShaped(m) && q < PAGES && frame < |m.cm|
    && Entry(m.dir, q).valid && Entry(m.dir, q).num == frame && (write ==> Entry(m.dir, q).dirty)
  }

  lemma ResidentBumped(m: Snap, q: nat, frame: nat, m': Snap)
    requires Resident(m, q, frame, true)
    requires m' == m.(mem := Overwrite(m.mem, 16 * frame, Bumped(FrameBytes(m.mem, frame))))
    ensures WellShaped(m') && BumpState(m, q, m')
  {
  }

  lemma MarkedResident(m1: Snap, q: nat, vaddr: nat, write: bool, m': Snap)
    requires Marked(m1, q, vaddr, write, m')
    ensures Resident(m', q, Entry(m1.dir, q).num, write)
  {
    var e := Entry(m1.dir, q);
    SetEntryFacts(m1.dir, q, e.(valid := true, ref := true, dirty := e.dirty || write));
  }

  /** `m1` is `m`, but that the second-level table of page `q` exists. */
  ghost predicate Opened(m: Snap, q: nat, m1: Snap) {
    && Shaped(m.dir) && Shaped(m1.dir) && q < PAGES && HasTable(m1.dir, q)
    && m1 == m.(dir := m1.dir)
    && forall r: nat | r < PAGES :: Entry(m1.dir, r) == Entry(m.dir, r)
  }

  lemma OpenKeeps(m: Snap, n: nat, flat: Flat, q: nat, m1: Snap)
    requires Inv(m, n, NONE, flat) && q < PAGES && WellShaped(m)
    requires m1 == m.(dir := if HasTable(m.dir, q) then m.dir else m.dir[q / PTRS := NewTable()])
    ensures Inv(m1, n, NONE, flat) && Opened(m, q, m1)
  {
    if !HasTable(m.dir, q) {
      NewTableFacts(m.dir, q / PTRS);
      AddTable(m, n, NONE, flat, q / PTRS);
    }
  }
}

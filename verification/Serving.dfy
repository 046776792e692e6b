/** The pager, its policy and the lossy memory between accesses, and what finding a
    page and one whole access do to them. */
module Serving {
  import opened Options
  import opened PageBytes
  import opened PageTable
  import opened FlatMemory
  import opened Paging
  import opened PolicySteps
  import opened Access
  import opened Ties
  import L = LossyMemory

  /** `n` frames are in use. */
  datatype Whole = Whole(m: Snap, n: nat, mem: L.Mem, v: View)

  ghost predicate Sane(alg: Algorithm, w: Whole) {
    && Inv(w.m, w.n, NONE, w.mem.cells)
    && Tied(w.m, w.mem)
    && Sound(alg, w.m, w.n, w.v)
  }

  lemma StartSane(alg: Algorithm, w: Whole)
    requires WellShaped(w.m) && w.m.used == {} && w.n == 0 && w.mem == L.EMPTY
    requires forall f: nat | f < |w.m.cm| :: !w.m.cm[f].inUse
    requires forall d | 0 <= d < PTRS :: w.m.dir[d] == []
    requires ViewOk(alg, w.v, 0, |w.m.cm|)
    ensures Sane(alg, w)
  {
    StartInv(w.m);
    StartTied(w.m);
  }

  // ----- finding the page

  /** The memory once the page of `r` was found, before a write to it. */
  ghost function Fetched(s: L.Mem, r: Ref, victim: Option<nat>, slots: nat): L.Mem {
    L.Step(s, r, victim, slots).(cells := s.cells[PageOf(r) := L.Found(s, r, victim, slots)])
  }

  /** What find_physpage promises: the page is in frame `frame`; the policy took one
      step; and the memory took one, with `victim` the page evicted, if any. */
  ghost predicate Served(alg: Algorithm, w: Whole, r: Ref, w': Whole, frame: nat, victim: Option<nat>) {
    && Resident(w'.m, PageOf(r), frame, IsWrite(r))
    && w'.m.slots == w.m.slots
    && w'.mem == Fetched(w.mem, r, victim, w.m.slots)
    && L.Fits(w.mem, r, victim, |w.m.cm|)
    && Follows(alg, w.m, w.n, w.v, w'.m, w'.n, w'.v, PageOf(r))
  }

  /** The page evicted by a call is one the memory can evict. */
  lemma CallFits(c: Call, s: L.Mem, a: Alloc, m': Snap)
    requires Inv(c.m, c.n, NONE, s.cells) && Tied(c.m, s) && Ready(c) && c.n <= |c.m.cm|
    requires IsHit(c) || a.frame < |c.m.cm|
    requires Fate(c.m, c.r, CallVictim(c, a), if IsHit(c) then INVALID_SWAP else a.at, m')
    ensures L.Fits(s, c.r, CallVictim(c, a), |c.m.cm|)
    ensures PageOf(c.r) in s.resident <==> IsHit(c)
  {
    ResidentSize(c.m, c.n, s);
    GoneAgrees(c.m, c.n, s, PageOf(c.r));
    if CallVictim(c, a).Some? {
      GoneAgrees(c.m, c.n, s, CallVictim(c, a).value);
    }
  }

  lemma FetchedFacts(m: Snap, n: nat, s: L.Mem, r: Ref, victim: Option<nat>)
    requires Inv(m, n, NONE, s.cells) && Tied(m, s) && WellShaped(m) && PageOf(r) < PAGES
    ensures var s' := Fetched(s, r, victim, m.slots);
            && Advances(s, r, victim, s')
            && s'.cells == Arrived(s.cells, PageOf(r), r.vaddr, Gone(m.dir, PageOf(r)), victim)
  {
    GoneAgrees(m, n, s, PageOf(r));
  }

  lemma InvFrames(m: Snap, n: nat, flat: Flat)
    requires Inv(m, n, NONE, flat)
    ensures n <= |m.cm|
  {
  }

  /** A call keeps the invariant and the tie. */
  lemma CallSane(c: Call, s: L.Mem, a: Alloc, claimed: Snap, m1: Snap, v1: View, m': Snap)
    requires Inv(c.m, c.n, NONE, s.cells) && Tied(c.m, s) && Ready(c)
    requires Located(c, a, claimed, m1, v1) && Went(c, a, claimed, m')
    ensures IsHit(c) || a.frame < |c.m.cm|
    ensures var s' := Fetched(s, c.r, CallVictim(c, a), c.m.slots);
            Inv(m', UsedAfter(c), NONE, s'.cells) && Tied(m', s')
    ensures L.Fits(s, c.r, CallVictim(c, a), |c.m.cm|) && m'.slots == c.m.slots
  {
    CallKeeps(c, s.cells, a, claimed, m');
    CallFate(c, s.cells, a, claimed, m1, v1, m');
    InvFrames(c.m, c.n, s.cells);
    CallFits(c, s, a, m');
    FetchedFacts(c.m, c.n, s, c.r, CallVictim(c, a));
    TieKeeps(c.m, c.n, s, c.r, CallVictim(c, a), if IsHit(c) then INVALID_SWAP else a.at, m',
             Fetched(s, c.r, CallVictim(c, a), c.m.slots));
  }

  lemma CallServes(c: Call, s: L.Mem, a: Alloc, m': Snap, v': View, frame: nat, w': Whole)
    requires Sane(c.alg, Whole(c.m, c.n, s, c.v)) && Called(c, a, m', v', frame)
    requires Ready(c) && (IsHit(c) || a.frame < |c.m.cm|)
    requires w' == Whole(m', UsedAfter(c), Fetched(s, c.r, CallVictim(c, a), c.m.slots), v')
    ensures Sane(c.alg, w')
    ensures Served(c.alg, Whole(c.m, c.n, s, c.v), c.r, w', frame, CallVictim(c, a))
  {
    var claimed, m1, v1 :|
      && Located(c, a, claimed, m1, v1)
      && Marked(m1, PageOf(c.r), c.r.vaddr, IsWrite(c.r), m')
      && Referenced(c.alg, v1, v', frame);
    CallWent(c, a, claimed, m1, v1, m');
    MarkedResident(m1, PageOf(c.r), c.r.vaddr, IsWrite(c.r), m');
    CallFollows(c, s.cells, a, claimed, m1, v1, m', v', frame);
    CallSane(c, s, a, claimed, m1, v1, m');
    FollowsSound(c.alg, c.m, c.n, c.v, m', UsedAfter(c), v', PageOf(c.r));
  }

  /** Whether the victim was dirty, and the page resident, is what the memory says. */
  lemma CallTicks(c: Call, s: L.Mem, a: Alloc, w': Whole, frame: nat)
    requires Sane(c.alg, Whole(c.m, c.n, s, c.v)) && Ready(c) && (IsHit(c) || a.frame < |c.m.cm|)
    requires Served(c.alg, Whole(c.m, c.n, s, c.v), c.r, w', frame, CallVictim(c, a))
    ensures PageOf(c.r) in s.resident <==> IsHit(c)
    ensures L.WasDirty(s, CallVictim(c, a)) == DirtyOf(c.m, CallVictim(c, a))
  {
    GoneAgrees(c.m, c.n, s, PageOf(c.r));
  }

  lemma FollowsSound(alg: Algorithm, m: Snap, n: nat, v: View, m': Snap, n': nat, v': View, q: nat)
    requires Follows(alg, m, n, v, m', n', v', q)
    ensures Sound(alg, m', n', v') && |m'.cm| == |m.cm|
  {
  }

  /** Allocating a second-level table first makes no difference. */
  lemma ServedFromTable(alg: Algorithm, w: Whole, r: Ref, m1: Snap, w': Whole, frame: nat, victim: Option<nat>)
    requires Sane(alg, w) && Opened(w.m, PageOf(r), m1)
    requires Served(alg, w.(m := m1), r, w', frame, victim)
    ensures Served(alg, w, r, w', frame, victim)
  {
    assert Sound(alg, w.m, w.n, w.v);
    FollowsFromTable(alg, w.m, w.n, w.v, m1, w'.m, w'.n, w'.v, PageOf(r));
  }

  lemma TiedFromTable(m: Snap, s: L.Mem, q: nat, m1: Snap)
    requires Tied(m, s) && Opened(m, q, m1)
    ensures Tied(m1, s)
  {
  }

  lemma OpenSane(alg: Algorithm, w: Whole, q: nat, m1: Snap)
    requires Sane(alg, w) && q < PAGES && WellShaped(w.m)
    requires m1 == w.m.(dir := if HasTable(w.m.dir, q) then w.m.dir else w.m.dir[q / PTRS := NewTable()])
    ensures Sane(alg, w.(m := m1)) && Opened(w.m, q, m1)
  {
    OpenKeeps(w.m, w.n, w.mem.cells, q, m1);
    TiedFromTable(w.m, w.mem, q, m1);
    assert Sound(alg, w.m, w.n, w.v);
  }

  // ----- one access

  /** What an access of `r` promises: it shows what the memory shows, the memory
      takes one step, and the policy takes one. */
  ghost predicate Accessed(alg: Algorithm, w: Whole, r: Ref, w': Whole, seen: Seen, victim: Option<nat>) {
    && seen == L.See(w.mem, r, victim, w.m.slots)
    && w'.mem == L.Step(w.mem, r, victim, w.m.slots)
    && w'.m.slots == w.m.slots
    && L.Fits(w.mem, r, victim, |w.m.cm|)
    && Follows(alg, w.m, w.n, w.v, w'.m, w'.n, w'.v, PageOf(r))
  }

  /** The page found is the one the memory has. */
  lemma ServedPage(alg: Algorithm, w: Whole, r: Ref, w': Whole, frame: nat, victim: Option<nat>)
    requires Sane(alg, w') && Served(alg, w, r, w', frame, victim)
    ensures WellShaped(w'.m) && frame < |w'.m.cm| && PageOf(r) in w'.mem.cells && PageOf(r) < PAGES
    ensures Holds(FrameBytes(w'.m.mem, frame), L.Found(w.mem, r, victim, w.m.slots))
  {
    assert Served(alg, w, r, w', frame, victim);
    assert Resident(w'.m, PageOf(r), frame, IsWrite(r));
    InvKeeps(w'.m, w'.n, NONE, w'.mem.cells, PageOf(r));
    InvParts(w'.m, w'.n, w'.mem.cells, PageOf(r));
  }

  ghost function Written(s: L.Mem, q: nat): L.Mem
    requires q in s.cells
  {
    s.(cells := Bump(s.cells, q))
  }

  /** Finding the page and, for a write, incrementing its version is the memory's step. */
  lemma FetchedWritten(s: L.Mem, r: Ref, victim: Option<nat>, slots: nat)
    ensures var s1 := Fetched(s, r, victim, slots);
            && PageOf(r) in s1.cells
            && L.Step(s, r, victim, slots) == if IsWrite(r) then Written(s1, PageOf(r)) else s1
  {
  }

  lemma WrittenTied(m: Snap, s: L.Mem, q: nat, m': Snap)
    requires Tied(m, s) && q in s.cells && m' == m.(mem := m'.mem)
    ensures Tied(m', Written(s, q))
  {
    assert Tied(m, s);
  }

  lemma WrittenSound(alg: Algorithm, m: Snap, n: nat, v: View, m': Snap)
    requires Sound(alg, m, n, v) && m' == m.(mem := m'.mem) && WellShaped(m')
    ensures Sound(alg, m', n, v)
  {
    assert Sound(alg, m, n, v);
  }

  lemma WrittenSane(alg: Algorithm, w: Whole, q: nat, w': Whole)
    requires Sane(alg, w) && q in w.mem.cells && BumpState(w.m, q, w'.m) && WellShaped(w'.m)
    requires w' == w.(m := w'.m, mem := Written(w.mem, q))
    ensures Sane(alg, w')
  {
    BumpKeeps(w.m, w.n, w.mem.cells, q, w'.m);
    assert BumpState(w.m, q, w'.m);
    WrittenTied(w.m, w.mem, q, w'.m);
    WrittenSound(alg, w.m, w.n, w.v, w'.m);
  }

  /** A version word written after the page was found. */
  lemma AccessDone(alg: Algorithm, w: Whole, r: Ref, w1: Whole, frame: nat, victim: Option<nat>, seen: Seen, w': Whole)
    requires Sane(alg, w1) && Served(alg, w, r, w1, frame, victim)
    requires WellShaped(w1.m) && frame < |w1.m.cm|
    requires seen == Seen(Address(FrameBytes(w1.m.mem, frame)) == r.vaddr, Version(FrameBytes(w1.m.mem, frame)))
    requires WellShaped(w'.m) && w'.m == w1.m.(mem := w'.m.mem) && w' == w1.(m := w'.m, mem := w'.mem)
    requires w'.mem == L.Step(w.mem, r, victim, w.m.slots)
    ensures Accessed(alg, w, r, w', seen, victim)
  {
    ServedPage(alg, w, r, w1, frame, victim);
    assert Served(alg, w, r, w1, frame, victim);
    FollowsOtherMemory(alg, w.m, w.n, w.v, w1.m, w'.m, w1.n, w1.v, PageOf(r));
  }

  /** The entry of page `q` after a reference of this kind: dirty after a store or a
      modify, and otherwise if it was, or if the page is new. */
  ghost predicate EntryAfter(dir: Directory, dir': Directory, q: nat, kind: char) {
    && Shaped(dir) && Shaped(dir') && q < PAGES
    && var e, e' := Entry(dir, q), Entry(dir', q);
       && e'.valid && !e'.onswap
       && (e'.dirty <==> kind == 'S' || kind == 'M' || if e.valid then e.dirty else !e.onswap)
  }

  lemma EntryIs(m: Snap, n: nat, s: L.Mem, q: nat)
    requires Inv(m, n, NONE, s.cells) && Tied(m, s) && q < PAGES
    ensures Shaped(m.dir)
    ensures var e := Entry(m.dir, q);
            && (q in s.resident <==> e.valid)
            && (q in s.cells <==> e.valid || e.onswap)
            && (e.valid ==> !e.onswap && (q in s.dirty <==> e.dirty))
  {
    GoneAgrees(m, n, s, q);
    assert EntryOk(m, n, NONE, q);
    assert q in s.cells <==> Paging.Touched(m.dir, q);
  }

  lemma StepMarks(s: L.Mem, r: Ref, victim: Option<nat>, slots: nat)
    requires r.vaddr / 4096 in s.resident ==> r.vaddr / 4096 in s.cells
    ensures var q, s' := r.vaddr / 4096, L.Step(s, r, victim, slots);
            && q in s'.resident
            && (q in s'.dirty <==>
                  r.kind == 'S' || r.kind == 'M' || if q in s.resident then q in s.dirty else q !in s.cells)
  {
  }

  lemma AccessedEntry(alg: Algorithm, w: Whole, r: Ref, w': Whole, seen: Seen, victim: Option<nat>)
    requires Sane(alg, w) && Sane(alg, w') && Accessed(alg, w, r, w', seen, victim) && r.vaddr < ADDRESSES
    ensures EntryAfter(w.m.dir, w'.m.dir, r.vaddr / 4096, r.kind)
  {
    hide Inv, Tied, Sound, Follows, L.Step;
    var q := r.vaddr / 4096;
    EntryIs(w.m, w.n, w.mem, q);
    EntryIs(w'.m, w'.n, w'.mem, q);
    StepMarks(w.mem, r, victim, w.m.slots);
  }
}

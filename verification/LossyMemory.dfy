/** What the simulated program sees, whether or not the swap file is large enough.

    A run is a trace and, for each reference, the page evicted for it, if any.  Only
    the first `slots` pages ever evicted have a place in the swap file; the contents
    of any other page are gone when it is evicted.  A page that is gone comes back
    with the contents of the page that makes room for it (A3/pagetable.c:59-62,79). */
module LossyMemory {
  import opened Options
  import opened PageBytes
  import opened FlatMemory
  import Sequences

  /** `order` lists the pages ever evicted, by first eviction; the others speak for
      themselves.  `dirty` means nothing for a page that is not resident. */
  datatype Mem = Mem(cells: Flat, resident: set<nat>, dirty: set<nat>, order: seq<nat>)

  const EMPTY: Mem := Mem(map[], {}, {}, [])

  function Gone(s: Mem, q: nat, slots: nat): bool {
    q in s.cells && q !in s.resident && q !in Sequences.Take(s.order, slots)
  }

  /** What page `q` holds once it is resident. */
  function Content(cells: Flat, q: nat, vaddr: nat, gone: bool, victim: Option<nat>): Cell {
    if q !in cells then Cell(vaddr, 0)
    else if gone && victim.Some? && victim.value in cells then cells[victim.value]
    else cells[q]
  }

  function Found(s: Mem, r: Ref, victim: Option<nat>, slots: nat): Cell {
    Content(s.cells, PageOf(r), r.vaddr, Gone(s, PageOf(r), slots), victim)
  }

  function See(s: Mem, r: Ref, victim: Option<nat>, slots: nat): Seen {
    var c := Found(s, r, victim, slots);
    Seen(c.vaddr == r.vaddr, c.writes % WORD)
  }

  function Evictions(order: seq<nat>, victim: Option<nat>): seq<nat> {
    if victim.None? || victim.value in order then order else order + [victim.value]
  }

  function Residents(resident: set<nat>, q: nat, victim: Option<nat>): set<nat> {
    (if victim.Some? then resident - {victim.value} else resident) + {q}
  }

  /** A new page is dirty, one read back is clean. */
  function Dirtied(s: Mem, r: Ref): set<nat> {
    var q := PageOf(r);
    if IsWrite(r) || q !in s.cells then s.dirty + {q} else if q in s.resident then s.dirty else s.dirty - {q}
  }

  function Step(s: Mem, r: Ref, victim: Option<nat>, slots: nat): Mem {
    var q, c := PageOf(r), Found(s, r, victim, slots);
    Mem(s.cells[q := c.(writes := c.writes + if IsWrite(r) then 1 else 0)],
        Residents(s.resident, q, victim), Dirtied(s, r), Evictions(s.order, victim))
  }

  function Run(trace: seq<Ref>, victims: seq<Option<nat>>, slots: nat): Mem
    requires |victims| == |trace|
  {
    if trace == [] then EMPTY
    else
      var k := |trace| - 1;
      Step(Run(trace[..k], victims[..k], slots), trace[k], victims[k], slots)
  }

  function Log(trace: seq<Ref>, victims: seq<Option<nat>>, slots: nat): (log: seq<Seen>)
    requires |victims| == |trace|
    ensures |log| == |trace|
  {
    if trace == [] then []
    else
      var k := |trace| - 1;
      Log(trace[..k], victims[..k], slots) + [See(Run(trace[..k], victims[..k], slots), trace[k], victims[k], slots)]
  }

  /** The counters of the simulator. */
  datatype Counts = Counts(hits: nat, misses: nat, refs: nat, clean: nat, dirty: nat)

  /** `evicted` says whether a page was evicted and, if so, whether it was dirty. */
  function Tick(c: Counts, hit: bool, evicted: Option<bool>): Counts {
    Counts(c.hits + if hit then 1 else 0, c.misses + if hit then 0 else 1, c.refs + 1,
           c.clean + if evicted == Some(false) then 1 else 0, c.dirty + if evicted == Some(true) then 1 else 0)
  }

  function WasDirty(s: Mem, victim: Option<nat>): Option<bool> {
    if victim.None? then None else Some(victim.value in s.dirty)
  }

  function Counted(trace: seq<Ref>, victims: seq<Option<nat>>, slots: nat): Counts
    requires |victims| == |trace|
  {
    if trace == [] then Counts(0, 0, 0, 0, 0)
    else
      var k := |trace| - 1;
      var s := Run(trace[..k], victims[..k], slots);
      Tick(Counted(trace[..k], victims[..k], slots), PageOf(trace[k]) in s.resident, WasDirty(s, victims[k]))
  }

  /** A page is evicted exactly for a miss with `m` pages resident, and it is one of them. */
  ghost predicate Fits(s: Mem, r: Ref, victim: Option<nat>, m: nat) {
    && (victim.None? <==> PageOf(r) in s.resident || |s.resident| < m)
    && (victim.Some? ==> victim.value in s.resident)
  }

  ghost predicate Played(trace: seq<Ref>, victims: seq<Option<nat>>, m: nat, slots: nat) {
    && |victims| == |trace|
    && forall i | 0 <= i < |trace| :: Fits(Run(trace[..i], victims[..i], slots), trace[i], victims[i], m)
  }
}

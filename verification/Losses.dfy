/** Exactly when the pager is flat memory, and what it loses. */
module Losses {
  import opened Options
  import opened PageTable
  import opened FlatMemory
  import opened Sequences
  import L = LossyMemory

  /** The state before reference `i`. */
  function Before(trace: seq<Ref>, victims: seq<Option<nat>>, slots: nat, i: nat): L.Mem
    requires |victims| == |trace| && i <= |trace|
  {
    L.Run(trace[..i], victims[..i], slots)
  }

  lemma Prefix(trace: seq<Ref>, victims: seq<Option<nat>>, slots: nat, k: nat, i: nat)
    requires |victims| == |trace| && i <= k <= |trace|
    ensures Before(trace[..k], victims[..k], slots, i) == Before(trace, victims, slots, i)
  {
    assert trace[..k][..i] == trace[..i] && victims[..k][..i] == victims[..i];
  }

  lemma PlayedPrefix(trace: seq<Ref>, victims: seq<Option<nat>>, m: nat, slots: nat, k: nat)
    requires L.Played(trace, victims, m, slots) && k <= |trace|
    ensures L.Played(trace[..k], victims[..k], m, slots)
  {
    forall i | 0 <= i < k
      ensures L.Fits(L.Run(trace[..k][..i], victims[..k][..i], slots), trace[..k][i], victims[..k][i], m)
    {
      Prefix(trace, victims, slots, k, i);
    }
  }

  lemma LastStep(trace: seq<Ref>, victims: seq<Option<nat>>, m: nat, slots: nat)
    requires L.Played(trace, victims, m, slots) && trace != []
    ensures var k := |trace| - 1;
            && L.Fits(Before(trace, victims, slots, k), trace[k], victims[k], m)
            && L.Run(trace, victims, slots) == L.Step(Before(trace, victims, slots, k), trace[k], victims[k], slots)
  {
  }

  // ----- what every state keeps

  /** A page once touched is resident or was evicted; pages are evicted only once
      memory is full, and it stays full. */
  ghost predicate Proper(s: L.Mem, m: nat) {
    && s.resident <= s.cells.Keys && |s.resident| <= m
    && Distinct(s.order) && (forall i | 0 <= i < |s.order| :: s.order[i] in s.cells)
    && (forall q | q in s.cells :: q in s.resident || q in s.order)
    && (s.order != [] ==> |s.resident| == m)
  }

  lemma ResidentCount(s: L.Mem, r: Ref, victim: Option<nat>, m: nat)
    requires |s.resident| <= m && L.Fits(s, r, victim, m)
    ensures |L.Residents(s.resident, PageOf(r), victim)|
         == if PageOf(r) in s.resident || victim.Some? then |s.resident| else |s.resident| + 1
  {
    if victim.Some? {
      assert |s.resident - {victim.value}| == |s.resident| - 1;
    } else if PageOf(r) in s.resident {
      assert s.resident + {PageOf(r)} == s.resident;
    }
  }

  lemma StepProper(s: L.Mem, r: Ref, victim: Option<nat>, m: nat, slots: nat)
    requires Proper(s, m) && L.Fits(s, r, victim, m)
    ensures Proper(L.Step(s, r, victim, slots), m)
  {
    var s' := L.Step(s, r, victim, slots);
    ResidentCount(s, r, victim, m);
    if victim.Some? {
      assert forall q :: q in s'.order <==> q in s.order || q == victim.value;
    }
  }

  lemma {:induction false} RunProper(trace: seq<Ref>, victims: seq<Option<nat>>, m: nat, slots: nat)
    requires 0 < m && L.Played(trace, victims, m, slots)
    ensures Proper(L.Run(trace, victims, slots), m)
  {
    if trace != [] {
      var k := |trace| - 1;
      PlayedPrefix(trace, victims, m, slots, k);
      RunProper(trace[..k], victims[..k], m, slots);
      LastStep(trace, victims, m, slots);
      StepProper(Before(trace, victims, slots, k), trace[k], victims[k], m, slots);
    }
  }

  // ----- which pages are lost

  /** The pages that had no slot when they were evicted: all but the first `slots` of
      the pages ever evicted. */
  ghost function Lost(s: L.Mem, slots: nat): set<nat> {
    if |s.order| <= slots then {} else ToSet(s.order[slots..])
  }

  lemma LostCount(s: L.Mem, slots: nat)
    requires Distinct(s.order)
    ensures |Lost(s, slots)| == if |s.order| <= slots then 0 else |s.order| - slots
  {
    if |s.order| > slots {
      DistinctSize(s.order[slots..]);
    }
  }

  lemma InOrder(s: L.Mem, q: nat, slots: nat)
    requires Distinct(s.order) && q in s.order
    ensures q in Lost(s, slots) <==> q !in Take(s.order, slots)
  {
    if |s.order| > slots {
      assert s.order == s.order[..slots] + s.order[slots..];
      forall i, j | 0 <= i < slots && slots <= j < |s.order|
        ensures s.order[i] != s.order[j]
      {
      }
    }
  }

  /** A page is in `order` exactly when it was evicted for some reference. */
  lemma {:induction false} OrderIsEvicted(trace: seq<Ref>, victims: seq<Option<nat>>, slots: nat, q: nat)
    requires |victims| == |trace|
    ensures q in L.Run(trace, victims, slots).order <==> Some(q) in victims
  {
    if trace != [] {
      var k := |trace| - 1;
      OrderIsEvicted(trace[..k], victims[..k], slots, q);
      assert victims == victims[..k] + [victims[k]];
    }
  }

  ghost function EvictedPages(victims: seq<Option<nat>>): set<nat> {
    set i | 0 <= i < |victims| && victims[i].Some? :: victims[i].value
  }

  /** Of the pages evicted in a run, as many are lost as there are more of them than slots. */
  lemma HowManyLost(trace: seq<Ref>, victims: seq<Option<nat>>, m: nat, slots: nat)
    requires 0 < m && L.Played(trace, victims, m, slots)
    ensures var evicted := |EvictedPages(victims)|;
            |Lost(L.Run(trace, victims, slots), slots)| == if evicted <= slots then 0 else evicted - slots
  {
    var s := L.Run(trace, victims, slots);
    RunProper(trace, victims, m, slots);
    LostCount(s, slots);
    forall q
      ensures q in EvictedPages(victims) <==> q in s.order
    {
      OrderIsEvicted(trace, victims, slots, q);
      if Some(q) in victims {
        var i :| 0 <= i < |victims| && victims[i] == Some(q);
        assert victims[i].Some? && victims[i].value == q;
      }
    }
    assert EvictedPages(victims) == ToSet(s.order);
    DistinctSize(s.order);
  }

  lemma OrderGrows(s: L.Mem, r: Ref, victim: Option<nat>, slots: nat)
    ensures Lost(s, slots) <= Lost(L.Step(s, r, victim, slots), slots)
    ensures forall q | q in Lost(L.Step(s, r, victim, slots), slots) && q !in Lost(s, slots) :: victim == Some(q)
  {
    var order, order' := s.order, L.Step(s, r, victim, slots).order;
    if |order'| > slots && order' != order {
      assert order'[slots..] == (if |order| > slots then order[slots..] else []) + [victim.value];
    }
  }

  /** A page that is gone has been lost. */
  lemma GoneIsLost(s: L.Mem, m: nat, q: nat, slots: nat)
    requires Proper(s, m)
    ensures L.Gone(s, q, slots) <==> q in Lost(s, slots) && q !in s.resident
  {
    if q in s.cells && q !in s.resident {
      InOrder(s, q, slots);
    }
    if q in Lost(s, slots) {
      var j :| slots <= j < |s.order| && s.order[j] == q;
      InOrder(s, q, slots);
    }
  }

  /** And a page that was lost was gone at some moment. */
  lemma {:induction false} LostWasGone(trace: seq<Ref>, victims: seq<Option<nat>>, m: nat, slots: nat, q: nat)
    returns (i: nat)
    requires 0 < m && L.Played(trace, victims, m, slots) && q in Lost(L.Run(trace, victims, slots), slots)
    ensures i <= |trace| && L.Gone(Before(trace, victims, slots, i), q, slots)
  {
    var k := |trace| - 1;
    var s := Before(trace, victims, slots, k);
    LastStep(trace, victims, m, slots);
    PlayedPrefix(trace, victims, m, slots, k);
    RunProper(trace[..k], victims[..k], m, slots);
    if q in Lost(s, slots) {
      i := LostWasGone(trace[..k], victims[..k], m, slots, q);
      Prefix(trace, victims, slots, k, i);
    } else {
      i := |trace|;
      OrderGrows(s, trace[k], victims[k], slots);
      StepProper(s, trace[k], victims[k], m, slots);
      assert trace[..i] == trace && victims[..i] == victims;
      GoneIsLost(L.Step(s, trace[k], victims[k], slots), m, q, slots);
    }
  }

  // ----- exactly when nothing shows

  /** No page is referenced after it was lost. */
  ghost predicate Unharmed(trace: seq<Ref>, victims: seq<Option<nat>>, slots: nat)
    requires |victims| == |trace|
  {
    forall i | 0 <= i < |trace| :: !L.Gone(Before(trace, victims, slots, i), PageOf(trace[i]), slots)
  }

  lemma UnharmedPrefix(trace: seq<Ref>, victims: seq<Option<nat>>, slots: nat, k: nat)
    requires |victims| == |trace| && k <= |trace| && Unharmed(trace, victims, slots)
    ensures Unharmed(trace[..k], victims[..k], slots)
  {
    forall i | 0 <= i < k
      ensures !L.Gone(Before(trace[..k], victims[..k], slots, i), PageOf(trace[..k][i]), slots)
    {
      Prefix(trace, victims, slots, k, i);
    }
  }

  /** As long as no page is referenced after it was lost, the contents and the
      observations are those of flat memory. */
  lemma {:induction false} UnharmedIsFlat(trace: seq<Ref>, victims: seq<Option<nat>>, slots: nat)
    requires |victims| == |trace| && Unharmed(trace, victims, slots)
    ensures L.Run(trace, victims, slots).cells == Run(trace)
    ensures L.Log(trace, victims, slots) == Log(trace)
  {
    if trace != [] {
      var k := |trace| - 1;
      UnharmedPrefix(trace, victims, slots, k);
      UnharmedIsFlat(trace[..k], victims[..k], slots);
      assert !L.Gone(Before(trace, victims, slots, k), PageOf(trace[k]), slots);
    }
  }

  /** Each page is always referenced by the same address. */
  ghost predicate OneAddress(trace: seq<Ref>) {
    forall i, j | 0 <= i < |trace| && 0 <= j < |trace| && PageOf(trace[i]) == PageOf(trace[j]) ::
      trace[i].vaddr == trace[j].vaddr
  }

  lemma {:induction false} FlatAddress(trace: seq<Ref>, q: nat)
    requires q in Run(trace)
    ensures Run(trace)[q].vaddr / PAGE_SIZE == q
    ensures exists k :: 0 <= k < |trace| && PageOf(trace[k]) == q && trace[k].vaddr == Run(trace)[q].vaddr
  {
    RunMeaning(trace, q);
    var k: nat :| FirstTouch(trace, k, q);
  }

  /** The first reference to a page that is gone shows the address of another page,
      whatever address it uses. */
  lemma {:induction false} HarmShows(trace: seq<Ref>, victims: seq<Option<nat>>, m: nat, slots: nat, i: nat)
    requires 0 < m && L.Played(trace, victims, m, slots) && i < |trace|
    requires Unharmed(trace[..i], victims[..i], slots)
    requires L.Gone(Before(trace, victims, slots, i), PageOf(trace[i]), slots)
    ensures !L.See(Before(trace, victims, slots, i), trace[i], victims[i], slots).matches
  {
    var s, q := Before(trace, victims, slots, i), PageOf(trace[i]);
    UnharmedIsFlat(trace[..i], victims[..i], slots);
    PlayedPrefix(trace, victims, m, slots, i);
    RunProper(trace[..i], victims[..i], m, slots);
    assert L.Fits(s, trace[i], victims[i], m);
    GoneIsLost(s, m, q, slots);
    FlatAddress(trace[..i], victims[i].value);
  }

  lemma {:induction false} LogAt(trace: seq<Ref>, victims: seq<Option<nat>>, slots: nat, i: nat)
    requires |victims| == |trace| && i < |trace|
    ensures L.Log(trace, victims, slots)[i] == L.See(Before(trace, victims, slots, i), trace[i], victims[i], slots)
    ensures Log(trace)[i] == See(Run(trace[..i]), trace[i])
  {
    hide L.Run, L.See, L.Step, Run, See;
    var k := |trace| - 1;
    if i < k {
      LogAt(trace[..k], victims[..k], slots, i);
      Prefix(trace, victims, slots, k, i);
      assert trace[..k][..i] == trace[..i];
    }
  }

  lemma {:induction false} HarmlessBefore(trace: seq<Ref>, victims: seq<Option<nat>>, slots: nat)
    requires |victims| == |trace| && trace != [] && !Unharmed(trace, victims, slots)
    requires Unharmed(trace[..|trace| - 1], victims[..|trace| - 1], slots)
    ensures L.Gone(Before(trace, victims, slots, |trace| - 1), PageOf(trace[|trace| - 1]), slots)
  {
    hide L.Gone, Before;
    var k := |trace| - 1;
    forall j | 0 <= j < k
      ensures !L.Gone(Before(trace, victims, slots, j), PageOf(trace[j]), slots)
    {
      Prefix(trace, victims, slots, k, j);
      assert !L.Gone(Before(trace[..k], victims[..k], slots, j), PageOf(trace[..k][j]), slots);
    }
  }

  lemma HarmedNonempty(trace: seq<Ref>, victims: seq<Option<nat>>, slots: nat)
    requires |victims| == |trace| && !Unharmed(trace, victims, slots)
    ensures trace != []
  {
  }

  lemma {:induction false} FirstHarm(trace: seq<Ref>, victims: seq<Option<nat>>, slots: nat) returns (i: nat)
    requires |victims| == |trace| && !Unharmed(trace, victims, slots)
    ensures i < |trace| && L.Gone(Before(trace, victims, slots, i), PageOf(trace[i]), slots)
    ensures Unharmed(trace[..i], victims[..i], slots)
  {
    hide L.Gone, Before, Unharmed;
    HarmedNonempty(trace, victims, slots);
    var k := |trace| - 1;
    if Unharmed(trace[..k], victims[..k], slots) {
      i := k;
      HarmlessBefore(trace, victims, slots);
    } else {
      i := FirstHarm(trace[..k], victims[..k], slots);
      Prefix(trace, victims, slots, k, i);
      assert trace[..k][..i] == trace[..i] && victims[..k][..i] == victims[..i];
    }
  }

  lemma {:induction false} Toucher(trace: seq<Ref>, i: nat) returns (k: nat)
    requires i < |trace|
    ensures k <= i && FirstTouch(trace, k, PageOf(trace[i]))
  {
    if j :| 0 <= j < i && PageOf(trace[j]) == PageOf(trace[i]) {
      k := Toucher(trace, j);
    } else {
      k := i;
    }
  }

  lemma {:induction false} CheckAt(trace: seq<Ref>, i: nat) returns (k: nat)
    requires i < |trace|
    ensures k <= i && FirstTouch(trace, k, PageOf(trace[i]))
    ensures Log(trace)[i].matches <==> trace[k].vaddr == trace[i].vaddr
  {
    k := Toucher(trace, i);
    LogMeaning(trace, i, k);
  }

  lemma {:induction false} SameAddress(trace: seq<Ref>, i: nat, j: nat)
    requires i < |trace| && j < |trace| && PageOf(trace[i]) == PageOf(trace[j])
    requires Log(trace)[i].matches && Log(trace)[j].matches
    ensures trace[i].vaddr == trace[j].vaddr
  {
    var a := CheckAt(trace, i);
    var b := CheckAt(trace, j);
    assert a == b;
  }

  ghost predicate AllMatch(log: seq<Seen>) {
    forall i: nat | i < |log| :: log[i].matches
  }

  /** In flat memory every address check passes if and only if each page is always
      referenced by one address. */
  lemma {:induction false} FlatChecks(trace: seq<Ref>)
    ensures AllMatch(Log(trace)) <==> OneAddress(trace)
  {
    if AllMatch(Log(trace)) {
      forall i, j | 0 <= i < |trace| && 0 <= j < |trace| && PageOf(trace[i]) == PageOf(trace[j])
        ensures trace[i].vaddr == trace[j].vaddr
      {
        SameAddress(trace, i, j);
      }
    }
    if OneAddress(trace) {
      forall i: nat | i < |trace|
        ensures Log(trace)[i].matches
      {
        var k := CheckAt(trace, i);
      }
    }
  }

  /** Every address check passes if and only if each page is always referenced by one
      address and no page is referenced after it was lost. */
  lemma {:induction false} ChecksPass(trace: seq<Ref>, victims: seq<Option<nat>>, m: nat, slots: nat)
    requires 0 < m && L.Played(trace, victims, m, slots)
    ensures AllMatch(L.Log(trace, victims, slots)) <==> OneAddress(trace) && Unharmed(trace, victims, slots)
  {
    FlatChecks(trace);
    if Unharmed(trace, victims, slots) {
      UnharmedIsFlat(trace, victims, slots);
    } else {
      var i := FirstHarm(trace, victims, slots);
      HarmShows(trace, victims, m, slots, i);
      LogAt(trace, victims, slots, i);
    }
  }

  /** With one address for each page, the pager shows what flat memory shows if and only
      if no page is referenced after it was lost. */
  lemma {:induction false} FlatExactly(trace: seq<Ref>, victims: seq<Option<nat>>, m: nat, slots: nat)
    requires 0 < m && L.Played(trace, victims, m, slots) && OneAddress(trace)
    ensures L.Log(trace, victims, slots) == Log(trace) <==> Unharmed(trace, victims, slots)
  {
    FlatChecks(trace);
    ChecksPass(trace, victims, m, slots);
    if Unharmed(trace, victims, slots) {
      UnharmedIsFlat(trace, victims, slots);
    }
  }

  // ----- the smallest loss

  const ABA: seq<Ref> := [Ref('L', 0), Ref('L', PAGE_SIZE), Ref('L', 0)]
  const ABA_VICTIMS: seq<Option<nat>> := [None, Some(0), Some(1)]

  /** The states of a run of three references. */
  lemma ThreeSteps(trace: seq<Ref>, victims: seq<Option<nat>>, slots: nat)
    requires |trace| == |victims| == 3
    ensures var s1 := L.Step(L.EMPTY, trace[0], victims[0], slots);
            var s2 := L.Step(s1, trace[1], victims[1], slots);
            && Before(trace, victims, slots, 0) == L.EMPTY && Before(trace, victims, slots, 1) == s1
            && Before(trace, victims, slots, 2) == s2
            && L.Log(trace, victims, slots)
            == [L.See(L.EMPTY, trace[0], victims[0], slots), L.See(s1, trace[1], victims[1], slots),
                L.See(s2, trace[2], victims[2], slots)]
  {
    forall i | 0 <= i < 3
      ensures L.Log(trace, victims, slots)[i] == L.See(Before(trace, victims, slots, i), trace[i], victims[i], slots)
    {
      LogAt(trace, victims, slots, i);
    }
    forall i | 0 <= i < 2
      ensures Before(trace, victims, slots, i + 1)
              == L.Step(Before(trace, victims, slots, i), trace[i], victims[i], slots)
    {
      assert trace[..i + 1][..i] == trace[..i] && victims[..i + 1][..i] == victims[..i];
    }
  }

  lemma ABAStates()
    ensures Before(ABA, ABA_VICTIMS, 0, 0) == L.EMPTY
    ensures Before(ABA, ABA_VICTIMS, 0, 1) == L.Mem(map[0 := Cell(0, 0)], {0}, {0}, [])
    ensures Before(ABA, ABA_VICTIMS, 0, 2)
         == L.Mem(map[0 := Cell(0, 0), 1 := Cell(PAGE_SIZE, 0)], {1}, {0, 1}, [0])
  {
    ThreeSteps(ABA, ABA_VICTIMS, 0);
  }

  lemma ABAPlayed()
    ensures L.Played(ABA, ABA_VICTIMS, 1, 0)
  {
    ABAStates();
    forall i | 0 <= i < 3
      ensures L.Fits(L.Run(ABA[..i], ABA_VICTIMS[..i], 0), ABA[i], ABA_VICTIMS[i], 1)
    {
      hide L.Run;
      assert L.Fits(Before(ABA, ABA_VICTIMS, 0, i), ABA[i], ABA_VICTIMS[i], 1);
    }
  }

  lemma ABALog()
    ensures L.Log(ABA, ABA_VICTIMS, 0) == [Seen(true, 0), Seen(true, 0), Seen(false, 0)]
  {
    hide L.Run, L.Step, L.Log;
    ABAStates();
    forall i | 0 <= i < 3
      ensures L.Log(ABA, ABA_VICTIMS, 0)[i] == [Seen(true, 0), Seen(true, 0), Seen(false, 0)][i]
    {
      LogAt(ABA, ABA_VICTIMS, 0, i);
    }
  }

  /** One frame, no slot, and two pages: the first page is lost, and shows the address
      of the second when it is referenced again. */
  lemma SmallestLoss()
    ensures L.Played(ABA, ABA_VICTIMS, 1, 0) && !Unharmed(ABA, ABA_VICTIMS, 0)
    ensures L.Log(ABA, ABA_VICTIMS, 0) == [Seen(true, 0), Seen(true, 0), Seen(false, 0)]
    ensures Log(ABA) == [Seen(true, 0), Seen(true, 0), Seen(true, 0)]
  {
    hide L.Run, L.Log, Log, L.Played;
    ABAPlayed();
    ABALog();
    FlatABA();
    ABAStates();
    assert L.Gone(Before(ABA, ABA_VICTIMS, 0, 2), PageOf(ABA[2]), 0);
  }

  /** With one frame there is no choice: every run of these references is that one. */
  lemma OnlyABA(victims: seq<Option<nat>>)
    requires L.Played(ABA, victims, 1, 0)
    ensures victims == ABA_VICTIMS
  {
    ThreeSteps(ABA, victims, 0);
    forall i | 0 <= i < 3
      ensures L.Fits(Before(ABA, victims, 0, i), ABA[i], victims[i], 1)
    {
      assert L.Fits(L.Run(ABA[..i], victims[..i], 0), ABA[i], victims[i], 1);
    }
    assert victims[0] == None;
    assert Before(ABA, victims, 0, 1).resident == {0};
    assert victims[1] == Some(0);
    assert Before(ABA, victims, 0, 2).resident == {1};
  }

  lemma FlatABA()
    ensures Log(ABA) == [Seen(true, 0), Seen(true, 0), Seen(true, 0)]
  {
    assert FirstTouch(ABA, 0, 0) && FirstTouch(ABA, 1, 1);
    LogMeaning(ABA, 0, 0);
    LogMeaning(ABA, 1, 1);
    LogMeaning(ABA, 2, 0);
    assert WritesTo(ABA[..0], 0) == WritesTo(ABA[..1], 0) == WritesTo(ABA[..2], 0) == 0;
    assert WritesTo(ABA[..0], 1) == WritesTo(ABA[..1], 1) == 0;
  }

  // ----- when the swap file is large enough

  lemma {:induction false} CellsAreTouched(trace: seq<Ref>, victims: seq<Option<nat>>, slots: nat)
    requires |victims| == |trace|
    ensures L.Run(trace, victims, slots).cells.Keys == Touched(trace)
  {
    if trace != [] {
      var k := |trace| - 1;
      CellsAreTouched(trace[..k], victims[..k], slots);
      RunKeys(trace[..k]);
      RunKeys(trace);
    }
  }

  /** With a slot for every page ever evicted nothing is lost. */
  lemma EnoughSlots(trace: seq<Ref>, victims: seq<Option<nat>>, m: nat, slots: nat)
    requires 0 < m && L.Played(trace, victims, m, slots) && |L.Run(trace, victims, slots).order| <= slots
    ensures Unharmed(trace, victims, slots)
  {
    forall i | 0 <= i < |trace|
      ensures !L.Gone(Before(trace, victims, slots, i), PageOf(trace[i]), slots)
    {
      OrderPrefix(trace, victims, slots, i);
      PlayedPrefix(trace, victims, m, slots, i);
      RunProper(trace[..i], victims[..i], m, slots);
      GoneIsLost(Before(trace, victims, slots, i), m, PageOf(trace[i]), slots);
    }
  }

  lemma {:induction false} OrderPrefix(trace: seq<Ref>, victims: seq<Option<nat>>, slots: nat, i: nat)
    requires |victims| == |trace| && i <= |trace|
    ensures |Before(trace, victims, slots, i).order| <= |L.Run(trace, victims, slots).order|
  {
    if i == |trace| {
      assert trace[..i] == trace && victims[..i] == victims;
    } else {
      var k := |trace| - 1;
      OrderPrefix(trace[..k], victims[..k], slots, i);
      Prefix(trace, victims, slots, k, i);
    }
  }

  /** That is so when the trace touches no more pages than there are slots. */
  lemma FewPages(trace: seq<Ref>, victims: seq<Option<nat>>, m: nat, slots: nat)
    requires 0 < m && L.Played(trace, victims, m, slots) && |Touched(trace)| <= slots
    ensures |L.Run(trace, victims, slots).order| <= slots
  {
    RunProper(trace, victims, m, slots);
    CellsAreTouched(trace, victims, slots);
    DistinctWithin(L.Run(trace, victims, slots).order, Touched(trace));
  }

  // ----- which evictions are dirty

  /** Reference `j` is to page `q`, and leaves it dirty whatever it was: a store, a
      modify, or the first reference to the page. */
  ghost predicate Soils(trace: seq<Ref>, j: nat, q: nat)
    requires j < |trace|
  {
    && trace[j].vaddr / 4096 == q
    && (trace[j].kind == 'S' || trace[j].kind == 'M' || forall i | 0 <= i < j :: trace[i].vaddr / 4096 != q)
  }

  /** Page `q` is not evicted for any of the references after `j` and before `i`. */
  ghost predicate Stays(victims: seq<Option<nat>>, j: nat, i: nat, q: nat)
    requires i <= |victims|
  {
    forall k | j < k < i :: victims[k] != Some(q)
  }

  /** Before reference `i`, page `q` was made dirty and has not left memory since. */
  ghost predicate Soiled(trace: seq<Ref>, victims: seq<Option<nat>>, i: nat, q: nat)
    requires |victims| == |trace| && i <= |trace|
  {
    exists j: nat :: j < i && Soils(trace, j, q) && Stays(victims, j, i, q)
  }

  /** The references that evict such a page, and those that evict another one. */
  ghost function DirtyEvictions(trace: seq<Ref>, victims: seq<Option<nat>>): set<nat>
    requires |victims| == |trace|
  {
    set i: nat | i < |trace| && victims[i].Some? && Soiled(trace, victims, i, victims[i].value)
  }

  ghost function CleanEvictions(trace: seq<Ref>, victims: seq<Option<nat>>): set<nat>
    requires |victims| == |trace|
  {
    set i: nat | i < |trace| && victims[i].Some? && !Soiled(trace, victims, i, victims[i].value)
  }

  lemma SoiledPrefix(trace: seq<Ref>, victims: seq<Option<nat>>, k: nat, i: nat, q: nat)
    requires |victims| == |trace| && i <= k <= |trace|
    ensures Soiled(trace[..k], victims[..k], i, q) == Soiled(trace, victims, i, q)
  {
    forall j: nat | j < i
      ensures Soils(trace[..k], j, q) == Soils(trace, j, q)
      ensures Stays(victims[..k], j, i, q) == Stays(victims, j, i, q)
    {
    }
  }

  lemma ResidentStep(s: L.Mem, r: Ref, victim: Option<nat>, m: nat, slots: nat, q: nat)
    requires L.Fits(s, r, victim, m)
    ensures q in L.Step(s, r, victim, slots).resident <==> PageOf(r) == q || (q in s.resident && victim != Some(q))
  {
  }

  /** A page that was referenced and not evicted since is resident. */
  lemma {:induction false} StaysResident(trace: seq<Ref>, victims: seq<Option<nat>>, m: nat, slots: nat, j: nat, q: nat)
    requires L.Played(trace, victims, m, slots) && j < |trace| && PageOf(trace[j]) == q
    requires Stays(victims, j, |trace|, q)
    ensures q in L.Run(trace, victims, slots).resident
  {
    hide L.Step, L.Run, L.Fits, PageOf;
    var k := |trace| - 1;
    LastStep(trace, victims, m, slots);
    ResidentStep(Before(trace, victims, slots, k), trace[k], victims[k], m, slots, q);
    if j < k {
      PlayedPrefix(trace, victims, m, slots, k);
      StaysResident(trace[..k], victims[..k], m, slots, j, q);
    }
  }

  /** One more reference. */
  lemma SoiledStep(trace: seq<Ref>, victims: seq<Option<nat>>, q: nat)
    requires |victims| == |trace| && trace != []
    ensures var k := |trace| - 1;
            Soiled(trace, victims, k + 1, q) <==>
              Soils(trace, k, q) || (Soiled(trace, victims, k, q) && victims[k] != Some(q))
  {
    var k := |trace| - 1;
    if Soils(trace, k, q) {
      assert Stays(victims, k, k + 1, q);
    }
    forall j: nat | j < k
      ensures Stays(victims, j, k + 1, q) <==> Stays(victims, j, k, q) && victims[k] != Some(q)
    {
    }
  }

  /** What a step does to the dirty flag of a page that is resident after it. */
  lemma DirtyStep(s: L.Mem, r: Ref, victim: Option<nat>, m: nat, slots: nat, q: nat)
    requires L.Fits(s, r, victim, m) && s.resident <= s.cells.Keys && q in L.Step(s, r, victim, slots).resident
    ensures victim != Some(q) && (PageOf(r) == q || q in s.resident)
    ensures q in L.Step(s, r, victim, slots).dirty <==>
              || (PageOf(r) == q && (r.kind == 'S' || r.kind == 'M' || q !in s.cells))
              || (q in s.resident && q in s.dirty)
  {
  }

  lemma LastSoils(trace: seq<Ref>, victims: seq<Option<nat>>, slots: nat, q: nat)
    requires |victims| == |trace| && trace != []
    ensures var k := |trace| - 1;
            var r := trace[k];
            Soils(trace, k, q) <==>
              PageOf(r) == q && (r.kind == 'S' || r.kind == 'M' || q !in Before(trace, victims, slots, k).cells)
  {
    var k := |trace| - 1;
    CellsAreTouched(trace[..k], victims[..k], slots);
    assert q in Touched(trace[..k]) <==> exists i: nat :: i < k && trace[i].vaddr / 4096 == q;
  }

  lemma LastDirty(trace: seq<Ref>, victims: seq<Option<nat>>, m: nat, slots: nat, q: nat)
    requires 0 < m && L.Played(trace, victims, m, slots) && trace != [] && q in L.Run(trace, victims, slots).resident
    ensures var k := |trace| - 1;
            var s := Before(trace, victims, slots, k);
            && victims[k] != Some(q) && (PageOf(trace[k]) == q || q in s.resident)
            && (q in L.Run(trace, victims, slots).dirty <==> Soils(trace, k, q) || (q in s.resident && q in s.dirty))
  {
    hide L.Step, L.Run, L.Fits, PageOf, Soils;
    var k := |trace| - 1;
    PlayedPrefix(trace, victims, m, slots, k);
    RunProper(trace[..k], victims[..k], m, slots);
    LastStep(trace, victims, m, slots);
    DirtyStep(Before(trace, victims, slots, k), trace[k], victims[k], m, slots, q);
    LastSoils(trace, victims, slots, q);
  }

  lemma SoiledResident(trace: seq<Ref>, victims: seq<Option<nat>>, m: nat, slots: nat, q: nat)
    requires L.Played(trace, victims, m, slots) && Soiled(trace, victims, |trace|, q)
    ensures q in L.Run(trace, victims, slots).resident
  {
    var j: nat :| j < |trace| && Soils(trace, j, q) && Stays(victims, j, |trace|, q);
    StaysResident(trace, victims, m, slots, j, q);
  }

  /** A resident page is dirty exactly when it was made so and has not left since. */
  lemma {:induction false} DirtyMeaning(trace: seq<Ref>, victims: seq<Option<nat>>, m: nat, slots: nat, q: nat)
    requires 0 < m && L.Played(trace, victims, m, slots) && q in L.Run(trace, victims, slots).resident
    ensures q in L.Run(trace, victims, slots).dirty <==> Soiled(trace, victims, |trace|, q)
  {
    if trace != [] {
      var k := |trace| - 1;
      PlayedPrefix(trace, victims, m, slots, k);
      LastDirty(trace, victims, m, slots, q);
      SoiledStep(trace, victims, q);
      SoiledPrefix(trace, victims, k, k, q);
      hide L.Run, L.Played, Soils, Soiled;
      if q in Before(trace, victims, slots, k).resident {
        DirtyMeaning(trace[..k], victims[..k], m, slots, q);
      } else if Soiled(trace[..k], victims[..k], k, q) {
        SoiledResident(trace[..k], victims[..k], m, slots, q);
        assert false;
      }
    }
  }

  lemma {:induction false} EvictionCounts(trace: seq<Ref>, victims: seq<Option<nat>>, m: nat, slots: nat)
    requires 0 < m && L.Played(trace, victims, m, slots)
    ensures L.Counted(trace, victims, slots).dirty == |DirtyEvictions(trace, victims)|
    ensures L.Counted(trace, victims, slots).clean == |CleanEvictions(trace, victims)|
  {
    if trace != [] {
      hide Soiled, L.Played, L.Step, DirtyEvictions, CleanEvictions;
      var k := |trace| - 1;
      PlayedPrefix(trace, victims, m, slots, k);
      EvictionCounts(trace[..k], victims[..k], m, slots);
      LastStep(trace, victims, m, slots);
      MoreEvictions(trace, victims);
      if victims[k].Some? {
        DirtyMeaning(trace[..k], victims[..k], m, slots, victims[k].value);
        SoiledPrefix(trace, victims, k, k, victims[k].value);
      }
    }
  }

  lemma AddIndex(before: set<nat>, after: set<nat>, k: nat, more: bool)
    requires k !in before && forall i: nat :: i in after <==> i in before || (i == k && more)
    ensures |after| == |before| + if more then 1 else 0
  {
    assert after == if more then before + {k} else before;
  }

  lemma MoreEvictions(trace: seq<Ref>, victims: seq<Option<nat>>)
    requires |victims| == |trace| && trace != []
    ensures var k := |trace| - 1;
            var dirty := victims[k].Some? && Soiled(trace, victims, k, victims[k].value);
            var clean := victims[k].Some? && !Soiled(trace, victims, k, victims[k].value);
            && |DirtyEvictions(trace, victims)|
            == |DirtyEvictions(trace[..k], victims[..k])| + (if dirty then 1 else 0)
            && |CleanEvictions(trace, victims)|
            == |CleanEvictions(trace[..k], victims[..k])| + (if clean then 1 else 0)
  {
    var k := |trace| - 1;
    forall i: nat | i < k && victims[i].Some?
      ensures Soiled(trace[..k], victims[..k], i, victims[i].value) == Soiled(trace, victims, i, victims[i].value)
    {
      SoiledPrefix(trace, victims, k, i, victims[i].value);
    }
    hide Soiled;
    var soiled := victims[k].Some? && Soiled(trace, victims, k, victims[k].value);
    AddIndex(DirtyEvictions(trace[..k], victims[..k]), DirtyEvictions(trace, victims), k, soiled);
    AddIndex(CleanEvictions(trace[..k], victims[..k]), CleanEvictions(trace, victims), k, victims[k].Some? && !soiled);
  }

  // ----- the counters

  /** Every reference hits or misses, and every miss takes a free frame or evicts. */
  lemma {:induction false} Balance(trace: seq<Ref>, victims: seq<Option<nat>>, m: nat, slots: nat)
    requires 0 < m && L.Played(trace, victims, m, slots)
    ensures var c := L.Counted(trace, victims, slots);
            && c.hits + c.misses == c.refs == |trace|
            && c.misses == |L.Run(trace, victims, slots).resident| + c.clean + c.dirty
  {
    if trace != [] {
      var k := |trace| - 1;
      var s, q := Before(trace, victims, slots, k), PageOf(trace[k]);
      PlayedPrefix(trace, victims, m, slots, k);
      Balance(trace[..k], victims[..k], m, slots);
      LastStep(trace, victims, m, slots);
      RunProper(trace[..k], victims[..k], m, slots);
      ResidentCount(s, trace[k], victims[k], m);
    }
  }
}

/** Whole runs of the intersection: no car is lost, overtaken or left behind. */
module Crossings {
  import opened Turns
  import opened Lanes
  import opened Intersection
  import opened Safety
  import opened Progress

  /** For every way in and out, the cars that have crossed, oldest first, and then
      those still to cross are the cars of the lane list at the start. */
  ghost predicate Ledger(s: State, schedule: seq<Car>)
    requires Shaped(s)
  {
    forall d: Direction, o: Direction ::
      Account(s.out[o], s.sides[d], d, o) == FromTo(Reversed(From(schedule, d)), d, o)
  }

  ghost function Account(crossed: seq<Car>, l: Side, d: Direction, o: Direction): seq<Car>
    requires 0 < |l.ring.cells|
  {
    Reversed(FromTo(crossed, d, o)) + FromTo(Pending(l), d, o)
  }

  /** A car moves from the front of those still to cross to the list of its way out. */
  lemma AccountMoves(crossed: seq<Car>, pending: seq<Car>, car: Car, d: Direction, o: Direction)
    ensures Reversed(FromTo([car] + crossed, d, o)) + FromTo(pending, d, o)
         == Reversed(FromTo(crossed, d, o)) + FromTo([car] + pending, d, o)
  {
    FromToConcat([car], crossed, d, o);
    FromToConcat([car], pending, d, o);
    var one := FromTo([car], d, o);
    assert one == if car.inDir == d && car.outDir == o then [car] else [];
    assert Reversed(one) == one;
    ReversedConcat(one, FromTo(crossed, d, o));
    Append3(Reversed(FromTo(crossed, d, o)), one, FromTo(pending, d, o));
  }

  lemma FromToOther(car: Car, rest: seq<Car>, d: Direction, o: Direction)
    requires car.inDir != d || car.outDir != o
    ensures FromTo([car] + rest, d, o) == FromTo(rest, d, o)
  {
    assert ([car] + rest)[1..] == rest;
  }

  /** A step in a lane moves no car out of it. */
  lemma LocalLedger(s: State, schedule: seq<Car>, d: Direction, l: Side)
    requires Shaped(s) && Ledger(s, schedule) && 0 < |l.ring.cells| && Pending(l) == Pending(s.sides[d])
    ensures Shaped(s.(sides := s.sides[d := l])) && Ledger(s.(sides := s.sides[d := l]), schedule)
  {
    var s' := s.(sides := s.sides[d := l]);
    forall e: Direction, o: Direction
      ensures Account(s'.out[o], s'.sides[e], e, o) == Account(s.out[o], s.sides[e], e, o)
    {
    }
  }

  /** The write of `out_cars` in complete_cross, seen by one way in and out. */
  lemma HeadAccount(out: seq<seq<Car>>, l: Side, l': Side, d: Direction, other: Side, e: Direction, o: Direction)
    requires |out| == 4 && 0 < |l.ring.cells| && 0 < |l'.ring.cells| && 0 < |other.ring.cells|
    requires l.car.inDir == d && Pending(l) == [l.car] + Pending(l')
    ensures var out' := out[l.car.outDir := [l.car] + out[l.car.outDir]];
            Account(out'[o], if e == d then l' else other, e, o) == Account(out[o], if e == d then l else other, e, o)
  {
    var pending := Pending(if e == d then l' else other);
    if e == d && o == l.car.outDir {
      AccountMoves(out[o], pending, l.car, e, o);
    } else if e == d {
      FromToOther(l.car, pending, e, o);
    } else if o == l.car.outDir {
      FromToOther(l.car, out[o], e, o);
    }
  }

  lemma HeadFacts(s: State, d: Direction)
    requires Inv(s) && s.sides[d].consumer.Head?
    ensures var l := s.sides[d]; var l' := CrossSide(l, s.out[l.car.outDir]);
            && l.car.inDir == d && l'.ring == l.ring && Pending(l) == [l.car] + Pending(l')
            && CrossStep(s, d).sides == s.sides[d := l']
            && CrossStep(s, d).out == s.out[l.car.outDir := [l.car] + s.out[l.car.outDir]]
  {
    assert SideOk(s.sides[d], d);
    CrossPending(s.sides[d], s.out[s.sides[d].car.outDir], d);
  }

  lemma HeadLedger(s: State, schedule: seq<Car>, d: Direction, l': Side, s': State)
    requires Shaped(s) && Ledger(s, schedule)
    requires var l := s.sides[d];
             && l.car.inDir == d && l'.ring == l.ring && Pending(l) == [l.car] + Pending(l')
             && s'.sides == s.sides[d := l'] && s'.out == s.out[l.car.outDir := [l.car] + s.out[l.car.outDir]]
    ensures Shaped(s') && Ledger(s', schedule)
  {
    forall e: Direction, o: Direction
      ensures Account(s'.out[o], s'.sides[e], e, o) == Account(s.out[o], s.sides[e], e, o)
    {
      HeadAccount(s.out, s.sides[d], l', d, s.sides[e], e, o);
    }
  }

  lemma CrossLedger(s: State, schedule: seq<Car>, d: Direction)
    requires Inv(s) && Ledger(s, schedule) && CanCross(s, s.sides[d])
    ensures Shaped(CrossStep(s, d)) && Ledger(CrossStep(s, d), schedule)
  {
    var l := s.sides[d];
    var l' := CrossSide(l, s.out[l.car.outDir]);
    if l.consumer.Head? {
      HeadFacts(s, d);
      HeadLedger(s, schedule, d, l', CrossStep(s, d));
    } else {
      assert SideOk(l, d);
      CrossCells(l, s.out[l.car.outDir]);
      CrossPending(l, s.out[l.car.outDir], d);
      LocalLedger(s, schedule, d, l');
    }
  }

  /** Every step keeps the ledger. */
  lemma StepLedger(s: State, s': State, t: Thread, schedule: seq<Car>)
    requires Inv(s) && Shaped(s) && Ledger(s, schedule) && Step(s, s', t)
    ensures Shaped(s') && Ledger(s', schedule)
  {
    var l := s.sides[t.d];
    assert SideOk(l, t.d);
    if Enabled(s, t) && s' == Next(s, t) {
      if t.Arrive? {
        ArriveKeeps(l, t.d);
        LocalLedger(s, schedule, t.d, ArriveStep(l));
      } else if CanTake(l) {
        TakeKeeps(l, t.d);
        LocalLedger(s, schedule, t.d, TakeStep(l));
      } else {
        CrossLedger(s, schedule, t.d);
      }
    } else {
      WakeKeeps(l, t.d);
      LocalLedger(s, schedule, t.d, s'.sides[t.d]);
    }
  }

  lemma StartAccount(l: Side, schedule: seq<Car>, d: Direction, o: Direction)
    requires 0 < |l.ring.cells| && StartsAt(l, schedule, d)
    ensures Account([], l, d, o) == FromTo(Reversed(From(schedule, d)), d, o)
  {
    StartSide(l, schedule, d);
    assert Reversed(FromTo([], d, o)) == [];
  }

  lemma StartLedger(s: State, schedule: seq<Car>)
    requires Start(s, schedule)
    ensures Ledger(s, schedule)
  {
    forall d: Direction, o: Direction
      ensures Account(s.out[o], s.sides[d], d, o) == FromTo(Reversed(From(schedule, d)), d, o)
    {
      assert s.out[o] == [] && StartsAt(s.sides[d], schedule, d);
      StartAccount(s.sides[d], schedule, d, o);
    }
  }

  // ----- runs

  /** A run of the program on a schedule: any thread may take any of its steps. */
  ghost predicate Run(states: seq<State>, threads: seq<Thread>, schedule: seq<Car>) {
    && |states| == |threads| + 1 && Start(states[0], schedule)
    && forall i | 0 <= i < |threads| :: Shaped(states[i]) && Step(states[i], states[i + 1], threads[i])
  }

  lemma RunAt(states: seq<State>, threads: seq<Thread>, schedule: seq<Car>, i: nat)
    requires Run(states, threads, schedule)
    ensures |states| == |threads| + 1 && Start(states[0], schedule)
    ensures i < |threads| ==> Shaped(states[i]) && Step(states[i], states[i + 1], threads[i])
  {
  }

  ghost predicate Good(s: State, schedule: seq<Car>) {
    Inv(s) && Ledger(s, schedule)
  }

  lemma StartGood(s: State, schedule: seq<Car>)
    requires Start(s, schedule)
    ensures Good(s, schedule)
  {
    StartInv(s, schedule);
    StartLedger(s, schedule);
  }

  lemma StepGood(s: State, s': State, t: Thread, schedule: seq<Car>)
    requires Good(s, schedule) && Shaped(s) && Step(s, s', t)
    ensures Good(s', schedule)
  {
    StepKeeps(s, s', t);
    StepLedger(s, s', t, schedule);
  }

  /** Every state of every run has the invariant and the ledger. */
  lemma {:induction false} Reached(states: seq<State>, threads: seq<Thread>, schedule: seq<Car>, i: nat)
    requires Run(states, threads, schedule) && i < |states|
    ensures Good(states[i], schedule)
  {
    hide Run, Start, Step, Good;
    if i == 0 {
      RunAt(states, threads, schedule, 0);
      StartGood(states[0], schedule);
    } else {
      Reached(states, threads, schedule, i - 1);
      RunAt(states, threads, schedule, i - 1);
      StepGood(states[i - 1], states[i], threads[i - 1], schedule);
    }
  }

  /** A step that is not a spurious wakeup. */
  ghost predicate Ordinary(s: State, s': State, t: Thread) {
    Shaped(s) && Enabled(s, t) && s' == Next(s, t)
  }

  /** How many of the first `i` steps are spurious wakeups. */
  ghost function Wakeups(states: seq<State>, threads: seq<Thread>, i: nat): nat
    requires |states| == |threads| + 1 && i <= |threads|
  {
    if i == 0 then 0
    else Wakeups(states, threads, i - 1) + if Ordinary(states[i - 1], states[i], threads[i - 1]) then 0 else 1
  }

  /** An ordinary step brings the measure down, a spurious wakeup puts it up by two. */
  lemma MeasureStep(s: State, s': State, t: Thread, schedule: seq<Car>)
    requires Good(s, schedule) && Shaped(s) && Step(s, s', t)
    ensures |s.sides| == |s'.sides| == 4
    ensures Measure(s') + 1 <= Measure(s) + if Ordinary(s, s', t) then 0 else 3
  {
    hide Measure, Ledger;
    if Ordinary(s, s', t) {
      MeasureFalls(s, t);
    } else {
      WakeMeasure(s, t);
    }
  }

  lemma {:induction false} MeasureAlong(states: seq<State>, threads: seq<Thread>, schedule: seq<Car>, i: nat)
    requires Run(states, threads, schedule) && i < |states| == |threads| + 1
    ensures |states[i].sides| == 4 && |states[0].sides| == 4
    ensures Measure(states[i]) + i <= Measure(states[0]) + 3 * Wakeups(states, threads, i)
  {
    hide Run, Measure, Step, Good, Ordinary;
    RunAt(states, threads, schedule, 0);
    if i > 0 {
      MeasureAlong(states, threads, schedule, i - 1);
      Reached(states, threads, schedule, i - 1);
      RunAt(states, threads, schedule, i - 1);
      MeasureStep(states[i - 1], states[i], threads[i - 1], schedule);
    }
  }

  /** A run is no longer than this; every spurious wakeup allows it three more steps. */
  lemma RunsEnd(states: seq<State>, threads: seq<Thread>, schedule: seq<Car>)
    requires Run(states, threads, schedule) && |states| == |threads| + 1
    ensures |threads| <= 35 * |schedule| + 120 + 3 * Wakeups(states, threads, |threads|)
  {
    RunAt(states, threads, schedule, 0);
    hide Run, Measure, Start, Wakeups;
    MeasureAlong(states, threads, schedule, |threads|);
    LastMeasure(states, threads, schedule);
    StartMeasure(states[0], schedule);
  }

  lemma LastMeasure(states: seq<State>, threads: seq<Thread>, schedule: seq<Car>)
    requires Run(states, threads, schedule) && |states| == |threads| + 1
    ensures |states[|threads|].sides| == 4 && Measure(states[|threads|]) >= 0
  {
    hide Run;
    Reached(states, threads, schedule, |threads|);
    MeasureIsPositive(states[|threads|]);
  }

  lemma {:induction false} LaneSizes(schedule: seq<Car>)
    ensures |From(schedule, NORTH)| + |From(schedule, WEST)| + |From(schedule, SOUTH)|
            + |From(schedule, EAST)| == |schedule|
  {
    if schedule != [] {
      LaneSizes(schedule[1..]);
    }
  }

  lemma StartWork(l: Side, schedule: seq<Car>, d: Direction)
    requires StartsAt(l, schedule, d)
    ensures Work(l) <= 35 * |From(schedule, d)| + 30
  {
  }

  lemma StartMeasure(s: State, schedule: seq<Car>)
    requires Start(s, schedule)
    ensures Measure(s) <= 35 * |schedule| + 120
  {
    LaneSizes(schedule);
    var n, w, so, e: Direction := NORTH, WEST, SOUTH, EAST;
    StartWork(s.sides[n], schedule, n);
    StartWork(s.sides[w], schedule, w);
    StartWork(s.sides[so], schedule, so);
    StartWork(s.sides[e], schedule, e);
  }

  // ----- the end

  lemma DoneLane(s: State, d: Direction)
    requires Inv(s) && Done(s)
    ensures Pending(s.sides[d]) == [] && s.sides[d].passed == s.sides[d].inc
  {
    assert SideOk(s.sides[d], d);
    FreedIsUnused(s.sides[d], d);
  }

  lemma LedgerAtEnd(s: State, schedule: seq<Car>, d: Direction, o: Direction)
    requires Shaped(s) && Ledger(s, schedule) && Pending(s.sides[d]) == []
    ensures FromTo(s.out[o], d, o) == FromTo(schedule, d, o)
  {
    var crossed := FromTo(s.out[o], d, o);
    assert Account(s.out[o], s.sides[d], d, o) == FromTo(Reversed(From(schedule, d)), d, o);
    FromToReversed(From(schedule, d), d, o);
    FromToOfFrom(schedule, d, o);
    assert Account(s.out[o], s.sides[d], d, o) == Reversed(crossed);
    assert Reversed(crossed) == Reversed(FromTo(schedule, d, o));
    ReversedTwice(crossed);
    ReversedTwice(FromTo(schedule, d, o));
  }

  /** A run that can go no further has let every car cross: each list of cars that
      have crossed holds, from each direction, exactly the cars of the schedule, in
      the order of its lines, and every lane has counted its cars. */
  lemma AllCross(states: seq<State>, threads: seq<Thread>, schedule: seq<Car>, d: Direction, o: Direction)
    requires Run(states, threads, schedule) && |states| == |threads| + 1
    requires var s := states[|threads|]; |s.sides| == 4 && forall t :: !Enabled(s, t)
    ensures var s := states[|threads|];
            && Done(s) && |s.out| == 4
            && FromTo(s.out[o], d, o) == FromTo(schedule, d, o)
            && (forall c | c in s.out[o] :: c.outDir == o)
            && s.sides[d].passed == s.sides[d].inc
  {
    var s := states[|threads|];
    Reached(states, threads, schedule, |threads|);
    if !Done(s) {
      var t := SomeoneMoves(s);
      assert false;
    }
    DoneLane(s, d);
    LedgerAtEnd(s, schedule, d, o);
  }

  /** Then every car of the schedule has crossed exactly as often as it is scheduled, and
      is in the list of the direction it goes to and in no other. */
  lemma EveryCarOnce(states: seq<State>, threads: seq<Thread>, schedule: seq<Car>, c: Car, o: Direction)
    requires Run(states, threads, schedule) && |states| == |threads| + 1
    requires var s := states[|threads|]; |s.sides| == 4 && forall t :: !Enabled(s, t)
    ensures var s := states[|threads|];
            && |s.out| == 4
            && multiset(s.out[o])[c] == if c.outDir == o then multiset(schedule)[c] else 0
  {
    AllCross(states, threads, schedule, c.inDir, o);
    var crossed := states[|threads|].out[o];
    FromToCounts(crossed, c.inDir, o, c);
    FromToCounts(schedule, c.inDir, o, c);
    assert c.outDir != o ==> c !in crossed;
  }

  /** Threads that wait and come back without a signal. */
  predicate Waits(s: State, t: Thread) {
    && |s.sides| == 4
    && match t
       case Arrive(d) => s.sides[d].producer.PWait?
       case Cross(d) => s.sides[d].consumer.CWait?
  }

  lemma WaitsUnlessOrdinary(s: State, s': State, t: Thread)
    requires Shaped(s) && Step(s, s', t)
    ensures Waits(s, t) <==> !Ordinary(s, s', t)
  {
  }

  ghost function WaitSteps(states: seq<State>, threads: seq<Thread>, i: nat): set<nat>
    requires i <= |threads| <= |states|
  {
    set k: nat | k < i && Waits(states[k], threads[k])
  }

  /** The spurious wakeups counted are the steps of waiting threads. */
  lemma {:induction false} WakeupsMeaning(states: seq<State>, threads: seq<Thread>, schedule: seq<Car>, i: nat)
    requires Run(states, threads, schedule) && |states| == |threads| + 1 && i <= |threads|
    ensures Wakeups(states, threads, i) == |WaitSteps(states, threads, i)|
  {
    hide Run, Ordinary, Waits, Step, Start;
    if i == 0 {
      assert WaitSteps(states, threads, i) == {};
    } else {
      WakeupsMeaning(states, threads, schedule, i - 1);
      RunAt(states, threads, schedule, i - 1);
      WaitsUnlessOrdinary(states[i - 1], states[i], threads[i - 1]);
      var before := WaitSteps(states, threads, i - 1);
      assert WaitSteps(states, threads, i) == if Waits(states[i - 1], threads[i - 1]) then before + {i - 1} else before;
    }
  }

  // ----- a whole run

  ghost function FirstSide(schedule: seq<Car>, capacity: nat, d: Direction): Side {
    var cars := Reversed(From(schedule, d));
    Side(Free, cars, Ring(seq(capacity, i => Car(0, NORTH, NORTH)), 0, 0, 0), |cars|, 0,
         if 0 < |cars| then PLock else PDone, 0, if 0 < |cars| then CLock else CFree, 0, Car(0, NORTH, NORTH))
  }

  lemma FirstSideStarts(schedule: seq<Car>, capacity: nat, d: Direction)
    ensures StartsAt(FirstSide(schedule, capacity, d), schedule, d)
    ensures |FirstSide(schedule, capacity, d).ring.cells| == capacity
  {
  }

  /** Every schedule has a start, whatever the capacity of the buffers. */
  lemma StartExists(schedule: seq<Car>, capacity: nat) returns (s: State)
    requires 0 < capacity
    ensures Start(s, schedule)
  {
    var sides := [FirstSide(schedule, capacity, NORTH), FirstSide(schedule, capacity, WEST),
                  FirstSide(schedule, capacity, SOUTH), FirstSide(schedule, capacity, EAST)];
    forall d: Direction
      ensures StartsAt(sides[d], schedule, d) && |sides[d].ring.cells| == capacity
    {
      FirstSideStarts(schedule, capacity, d);
    }
    s := State(sides, map[], [[], [], [], []]);
  }

  lemma DoneStops(s: State)
    requires Done(s) && Shaped(s)
    ensures forall t :: !Enabled(s, t)
  {
  }

  lemma {:induction false} WakeupsStay(states: seq<State>, threads: seq<Thread>, s': State, t: Thread, i: nat)
    requires |states| == |threads| + 1 && i <= |threads|
    ensures Wakeups(states + [s'], threads + [t], i) == Wakeups(states, threads, i)
  {
    if i > 0 {
      WakeupsStay(states, threads, s', t, i - 1);
    }
  }

  lemma ExtendRun(states: seq<State>, threads: seq<Thread>, schedule: seq<Car>, t: Thread, s': State)
    requires Run(states, threads, schedule) && |states| == |threads| + 1
    requires Ordinary(states[|threads|], s', t)
    ensures Run(states + [s'], threads + [t], schedule)
    ensures Wakeups(states + [s'], threads + [t], |threads| + 1) == Wakeups(states, threads, |threads|)
  {
    var longer, steps := states + [s'], threads + [t];
    forall i: nat | i < |steps|
      ensures Shaped(longer[i]) && Step(longer[i], longer[i + 1], steps[i])
    {
      if i < |threads| {
        RunAt(states, threads, schedule, i);
        assert longer[i] == states[i] && longer[i + 1] == states[i + 1] && steps[i] == threads[i];
      }
    }
    WakeupsStay(states, threads, s', t, |threads|);
  }

  lemma LastGood(states: seq<State>, threads: seq<Thread>, schedule: seq<Car>)
    requires Run(states, threads, schedule) && |states| == |threads| + 1
    ensures Good(states[|threads|], schedule) && |states[|threads|].sides| == 4
    ensures Measure(states[|threads|]) >= 0
  {
    Reached(states, threads, schedule, |threads|);
    LastMeasure(states, threads, schedule);
  }

  lemma OneMore(s: State, schedule: seq<Car>) returns (t: Thread, s': State)
    requires Good(s, schedule) && !Done(s)
    ensures |s.sides| == |s'.sides| == 4 && Measure(s') < Measure(s) && Ordinary(s, s', t)
  {
    t := SomeoneMoves(s);
    MeasureFalls(s, t);
    s' := Next(s, t);
  }

  ghost function LeftOver(s: State): int {
    if |s.sides| == 4 then Measure(s) else 0
  }

  /** Every run, spurious wakeups and all, can be continued until all threads are done,
      without another spurious wakeup. */
  lemma Finishes(states: seq<State>, threads: seq<Thread>, schedule: seq<Car>)
    returns (states': seq<State>, threads': seq<Thread>)
    requires Run(states, threads, schedule) && |states| == |threads| + 1
    ensures |states'| == |threads'| + 1 && Run(states', threads', schedule)
    ensures states <= states' && threads <= threads'
    ensures Done(states'[|threads'|]) && forall t :: !Enabled(states'[|threads'|], t)
    ensures Wakeups(states', threads', |threads'|) == Wakeups(states, threads, |threads|)
    decreases LeftOver(states[|threads|])
  {
    hide Run, Good, Wakeups, Measure, Done, Enabled, Ordinary;
    LastGood(states, threads, schedule);
    if Done(states[|threads|]) {
      GoodIsShaped(states[|threads|], schedule);
      DoneStops(states[|threads|]);
      return states, threads;
    }
    var t, s' := OneMore(states[|threads|], schedule);
    ExtendRun(states, threads, schedule, t, s');
    states', threads' := Finishes(states + [s'], threads + [t], schedule);
  }

  lemma GoodIsShaped(s: State, schedule: seq<Car>)
    requires Good(s, schedule)
    ensures Shaped(s)
  {
  }
}

/** The intersection never deadlocks and, without spurious wakeups, every run ends. */
module Progress {
  import opened Turns
  import opened Lanes
  import opened Intersection
  import opened Safety

  // ----- some thread can always move

  /** The thread that holds the lock of a lane can move; in particular the write
      finds a car and room, and the read finds a car. */
  lemma InsideMoves(l: Side, d: Direction)
    requires SideOk(l, d)
    ensures ProducerInside(l.producer) ==> CanArrive(l)
    ensures ConsumerInside(l.consumer) ==> CanTake(l)
  {
  }

  /** The buffer is freed when the crossing thread ends; nobody uses it any more. */
  lemma FreedIsUnused(l: Side, d: Direction)
    requires SideOk(l, d) && l.consumer.CDone?
    ensures l.inCars == [] && Contents(l.ring) == [] && !l.producer.PWrite? && !l.producer.PCheck?
  {
  }

  /** With its lock free and no car in the intersection, a lane that cannot move is done. */
  lemma StuckIsDone(l: Side, d: Direction)
    requires SideOk(l, d) && l.lock.Free? && !IsCrossing(l) && !CanArrive(l) && !CanTake(l)
    ensures l.producer.PDone? && l.consumer.CDone?
  {
  }

  /** The quadrant a thread waits for, or 5 if it waits for none. */
  function Wanted(l: Side): (q: nat)
    ensures q <= 5
  {
    if l.consumer.Acquire? && l.consumer.k < |Route(l)| then Route(l)[l.consumer.k] else 5
  }

  /** A thread that holds a quadrant wants only later ones. */
  lemma WantsLater(l: Side, q: Quadrant)
    requires q in Held(l)
    ensures IsCrossing(l) && q < Wanted(l)
  {
    PathIsRoute(l.car.inDir, l.car.outDir);
  }

  /** Following the owner of the quadrant wanted leads, upwards, to a thread in the
      intersection that can move. */
  lemma SomeoneCrosses(s: State, d: Direction) returns (e: Direction)
    requires Inv(s) && IsCrossing(s.sides[d])
    ensures CanCross(s, s.sides[e])
    decreases 5 - Wanted(s.sides[d])
  {
    if CanCross(s, s.sides[d]) {
      return d;
    }
    var q := Route(s.sides[d])[s.sides[d].consumer.k];
    var owner := s.quads[q];
    OwnerHolds(s, q);
    WantsLater(s.sides[owner], q);
    e := SomeoneCrosses(s, owner);
  }

  lemma OwnerHolds(s: State, q: Quadrant)
    requires |s.sides| == 4 && QuadsOk(s) && q in s.quads
    ensures q in Held(s.sides[s.quads[q]])
  {
    assert Owned(s.quads, HeldBy(s));
    assert q in HeldBy(s)[s.quads[q]];
  }

  /** Deadlock freedom: unless all threads are done, one of them can move. */
  lemma SomeoneMoves(s: State) returns (t: Thread)
    requires Inv(s) && !Done(s)
    ensures Enabled(s, t)
  {
    var d: Direction :| !(s.sides[d].producer.PDone? && s.sides[d].consumer.CDone?);
    var l := s.sides[d];
    assert SideOk(l, d);
    if CanArrive(l) {
      return Arrive(d);
    }
    if CanTake(l) {
      return Cross(d);
    }
    if IsCrossing(l) {
      var e := SomeoneCrosses(s, d);
      return Cross(e);
    }
    InsideMoves(l, d);
    StuckIsDone(l, d);
    assert false;
  }

  // ----- a measure that falls

  function ProducerRank(p: Producer): nat {
    match p
    case PLock => 8
    case PWake => 8
    case PCheck => 7
    case PWait => 6
    case PWrite => 5
    case PSignal => 4
    case PUnlock => 1
    case PDone => 0
  }

  function ConsumerRank(c: Consumer): nat {
    match c
    case CLock => 22
    case CWake => 22
    case CCheck => 21
    case CWait => 20
    case CRead => 19
    case CCount => 18
    case CSignal => 17
    case CUnlock => 14
    case Acquire(k) => if k <= 4 then 13 - k else 9
    case Link => 8
    case Head(_) => 7
    case Passed => 6
    case Release(k) => if k <= 4 then 5 - k else 1
    case CFree => 1
    case CDone => 0
  }

  /** The steps left in a lane, at most.  Waking the other thread costs less than the
      signal is worth. */
  function Work(l: Side): int {
    10 * (l.inc - l.made) + ProducerRank(l.producer) + 25 * (l.inc - l.taken) + ConsumerRank(l.consumer)
  }

  function Measure(s: State): int
    requires |s.sides| == 4
  {
    Work(s.sides[0]) + Work(s.sides[1]) + Work(s.sides[2]) + Work(s.sides[3])
  }

  lemma WorkIsPositive(l: Side, d: Direction)
    requires SideOk(l, d)
    ensures Work(l) >= 0
  {
  }

  lemma MeasureIsPositive(s: State)
    requires Inv(s)
    ensures Measure(s) >= 0
  {
    forall d: Direction
      ensures Work(s.sides[d]) >= 0
    {
      WorkIsPositive(s.sides[d], d);
    }
    var n, w, so, e: Direction := NORTH, WEST, SOUTH, EAST;
    assert Work(s.sides[n]) >= 0 && Work(s.sides[w]) >= 0 && Work(s.sides[so]) >= 0 && Work(s.sides[e]) >= 0;
  }

  lemma ArriveWork(l: Side, d: Direction)
    requires SideOk(l, d) && CanArrive(l)
    ensures Work(ArriveStep(l)) < Work(l)
  {
  }

  lemma TakeWork(l: Side, d: Direction)
    requires SideOk(l, d) && CanTake(l)
    ensures Work(TakeStep(l)) < Work(l)
  {
  }

  lemma CrossWork(l: Side, list: seq<Car>)
    requires RoundsOk(l) && IsCrossing(l)
    ensures Work(CrossSide(l, list)) < Work(l)
  {
    PathIsRoute(l.car.inDir, l.car.outDir);
    assert |Route(l)| <= 4;
  }

  lemma MeasureOfUpdate(s: State, d: Direction, l: Side, s': State)
    requires |s.sides| == 4 && s'.sides == s.sides[d := l]
    ensures Measure(s') == Measure(s) - Work(s.sides[d]) + Work(l)
  {
  }

  lemma SideRounds(l: Side, d: Direction)
    requires SideOk(l, d)
    ensures RoundsOk(l)
  {
  }

  /** Every step that is not a spurious wakeup brings the measure down. */
  lemma MeasureFalls(s: State, t: Thread)
    requires Inv(s) && Enabled(s, t)
    ensures |Next(s, t).sides| == 4 && Measure(Next(s, t)) < Measure(s)
  {
    var l := s.sides[t.d];
    assert SideOk(l, t.d);
    hide SideOk, Work, Measure, Inv;
    if t.Arrive? {
      ArriveWork(l, t.d);
    } else if CanTake(l) {
      TakeWork(l, t.d);
    } else {
      SideRounds(l, t.d);
      CrossWork(l, s.out[l.car.outDir]);
    }
    MeasureOfUpdate(s, t.d, Next(s, t).sides[t.d], Next(s, t));
  }

  lemma InvShaped(s: State)
    requires Inv(s)
    ensures Shaped(s)
  {
  }

  lemma WakeWork(l: Side)
    ensures l.producer.PWait? ==> Work(l.(producer := PWake)) == Work(l) + 2
    ensures l.consumer.CWait? ==> Work(l.(consumer := CWake)) == Work(l) + 2
  {
  }

  /** A spurious wakeup puts the measure up by two. */
  lemma WakeMeasure(s: State, t: Thread)
    requires Inv(s) && CanWakeSpuriously(s, t)
    ensures |SpuriousWake(s, t).sides| == 4 && Measure(SpuriousWake(s, t)) == Measure(s) + 2
  {
    hide Work, Measure, Inv;
    InvShaped(s);
    WakeWork(s.sides[t.d]);
    MeasureOfUpdate(s, t.d, SpuriousWake(s, t).sides[t.d], SpuriousWake(s, t));
  }
}

/** What every step of the intersection keeps, spurious wakeups included. */
module Safety {
  import opened Turns
  import opened Lanes
  import opened Intersection

  // ----- one lane

  predicate ProducerInside(p: Producer) {
    p.PCheck? || p.PWrite? || p.PSignal? || p.PUnlock?
  }

  predicate ConsumerInside(c: Consumer) {
    c.CCheck? || c.CRead? || c.CCount? || c.CSignal? || c.CUnlock?
  }

  /** The crossing thread has taken a car that is not in an `out_cars` list yet. */
  predicate HasCar(c: Consumer) {
    c.CCount? || c.CSignal? || c.CUnlock? || c.Acquire? || c.Link? || c.Head?
  }

  /** The crossing thread has taken the car of its current round. */
  predicate Took(c: Consumer) {
    HasCar(c) || c.Passed? || c.Release?
  }

  /** The buffer, with a car that was read but not yet counted out left out. */
  function Counted(l: Side): Ring {
    if l.consumer.CCount? && 0 < l.ring.inBuf then l.ring.(inBuf := l.ring.inBuf - 1) else l.ring
  }

  /** Cars written to, and taken from, the buffer so far. */
  function Written(l: Side): nat {
    l.made + if l.producer.PSignal? || l.producer.PUnlock? then 1 else 0
  }

  function Taken(l: Side): nat {
    l.taken + if Took(l.consumer) then 1 else 0
  }

  /** The mutex of the lane is held exactly by the thread inside. */
  ghost predicate LockOk(l: Side) {
    && (l.lock.ByProducer? <==> ProducerInside(l.producer))
    && (l.lock.ByConsumer? <==> ConsumerInside(l.consumer))
  }

  ghost predicate BufferOk(l: Side) {
    && 0 < |l.ring.cells| && RingOk(Counted(l)) && (l.consumer.CCount? ==> 0 < l.ring.inBuf)
    && |l.inCars| + Written(l) == l.inc
    && Written(l) == Taken(l) + Counted(l).inBuf
  }

  ghost predicate RoundsOk(l: Side) {
    && (if l.producer.PDone? then l.made == l.inc else l.made < l.inc)
    && (if l.consumer.CFree? || l.consumer.CDone? then l.taken == l.inc else l.taken < l.inc)
    && l.passed == l.taken + (if l.consumer.Release? then 1 else 0)
    && (l.consumer.Acquire? ==> l.consumer.k <= |Route(l)|)
    && (l.consumer.Release? ==> l.consumer.k <= |Route(l)|)
  }

  /** A thread about to write or read has room or a car; a thread that waits has
      reason to, or the signal that wakes it is the other thread's next step. */
  ghost predicate WaitsOk(l: Side) {
    && (l.producer.PWrite? ==> l.ring.inBuf < |l.ring.cells|)
    && (l.consumer.CRead? ==> 0 < l.ring.inBuf)
    && (l.producer.PWait? ==> l.ring.inBuf == |l.ring.cells| || l.consumer.CSignal?)
    && (l.consumer.CWait? ==> l.ring.inBuf == 0 || l.producer.PSignal?)
  }

  /** The cars still to cross, in the order they will. */
  ghost function Pending(l: Side): seq<Car>
    requires 0 < |l.ring.cells|
  {
    (if HasCar(l.consumer) then [l.car] else []) + (Contents(Counted(l)) + l.inCars)
  }

  ghost predicate CarsOk(l: Side, d: Direction)
    requires 0 < |l.ring.cells|
  {
    (forall c | c in Pending(l) :: c.inDir == d) && (Took(l.consumer) ==> l.car.inDir == d)
  }

  ghost predicate SideOk(l: Side, d: Direction) {
    LockOk(l) && BufferOk(l) && RoundsOk(l) && WaitsOk(l) && CarsOk(l, d)
  }

  lemma WriteKeeps(l: Side, d: Direction)
    requires SideOk(l, d) && CanArrive(l) && l.producer.PWrite?
    ensures SideOk(ArriveStep(l), d) && Pending(ArriveStep(l)) == Pending(l)
  {
    WriteAppends(l.ring, l.inCars[0]);
    assert Contents(l.ring) + [l.inCars[0]] + l.inCars[1..] == Contents(l.ring) + l.inCars;
  }

  lemma ArriveKeeps(l: Side, d: Direction)
    requires SideOk(l, d) && CanArrive(l)
    ensures SideOk(ArriveStep(l), d) && Pending(ArriveStep(l)) == Pending(l)
  {
    hide Contents, ComputePath;
    if l.producer.PWrite? {
      WriteKeeps(l, d);
    }
  }

  lemma ReadKeeps(l: Side, d: Direction)
    requires SideOk(l, d) && CanTake(l) && l.consumer.CRead?
    ensures SideOk(TakeStep(l), d) && Pending(TakeStep(l)) == Pending(l)
  {
    ReadTakes(l.ring);
    var first := l.ring.cells[l.ring.head];
    assert Counted(TakeStep(l)) == Advance(l.ring).(inBuf := l.ring.inBuf - 1);
    assert Pending(TakeStep(l)) == [first] + (Contents(l.ring)[1..] + l.inCars);
    assert first == Pending(l)[0];
  }

  lemma TakeKeeps(l: Side, d: Direction)
    requires SideOk(l, d) && CanTake(l)
    ensures SideOk(TakeStep(l), d) && Pending(TakeStep(l)) == Pending(l)
  {
    hide RingOk, Contents, ComputePath;
    if l.consumer.CRead? {
      ReadKeeps(l, d);
    }
  }

  lemma WakeKeeps(l: Side, d: Direction)
    requires SideOk(l, d)
    ensures l.producer.PWait? ==> SideOk(l.(producer := PWake), d) && Pending(l.(producer := PWake)) == Pending(l)
    ensures l.consumer.CWait? ==> SideOk(l.(consumer := CWake), d) && Pending(l.(consumer := CWake)) == Pending(l)
  {
  }

  // ----- the quadrants

  ghost function Set(p: seq<Quadrant>): set<Quadrant> {
    set q | q in p
  }

  /** The quadrants of the path that the crossing thread has locked and not unlocked. */
  ghost function Held(l: Side): set<Quadrant> {
    match l.consumer
    case Acquire(k) => if k <= |Route(l)| then Set(Route(l)[..k]) else {}
    case Link => Set(Route(l))
    case Head(_) => Set(Route(l))
    case Passed => Set(Route(l))
    case Release(k) => if k <= |Route(l)| then Set(Route(l)[k..]) else {}
    case _ => {}
  }

  ghost function HeldBy(s: State): (h: seq<set<Quadrant>>)
    requires |s.sides| == 4
    ensures |h| == 4 && forall d: Direction :: h[d] == Held(s.sides[d])
  {
    [Held(s.sides[0]), Held(s.sides[1]), Held(s.sides[2]), Held(s.sides[3])]
  }

  /** A quadrant is locked exactly by the lane that holds it. */
  ghost predicate Owned(quads: map<Quadrant, Direction>, held: seq<set<Quadrant>>) {
    |held| == 4 && forall q: Quadrant, d: Direction :: q in held[d] <==> q in quads && quads[q] == d
  }

  lemma OwnedAdd(quads: map<Quadrant, Direction>, held: seq<set<Quadrant>>, d: Direction, q: Quadrant)
    requires Owned(quads, held) && q !in quads
    ensures Owned(quads[q := d], held[d := held[d] + {q}])
  {
  }

  lemma OwnedRemove(quads: map<Quadrant, Direction>, held: seq<set<Quadrant>>, d: Direction, q: Quadrant)
    requires Owned(quads, held) && q in held[d]
    ensures Owned(quads - {q}, held[d := held[d] - {q}])
  {
    OwnedBy(quads, held, d, q);
    var quads', held' := quads - {q}, held[d := held[d] - {q}];
    forall r: Quadrant, e: Direction
      ensures r in held'[e] <==> r in quads' && quads'[r] == e
    {
      assert r in held[e] <==> r in quads && quads[r] == e;
    }
  }

  lemma OwnedBy(quads: map<Quadrant, Direction>, held: seq<set<Quadrant>>, d: Direction, q: Quadrant)
    requires Owned(quads, held) && q in held[d]
    ensures q in quads && quads[q] == d
  {
  }

  ghost predicate QuadsOk(s: State)
    requires |s.sides| == 4
  {
    Owned(s.quads, HeldBy(s))
  }

  // ----- the lists of cars that have crossed

  /** What a thread read of an `out_cars` list is still there when it writes. */
  ghost predicate OutOk(s: State)
    requires |s.sides| == 4 && |s.out| == 4
  {
    && (forall d: Direction :: s.sides[d].consumer.Head? ==> s.sides[d].consumer.rest == s.out[s.sides[d].car.outDir])
    && forall o: Direction, c | c in s.out[o] :: c.outDir == o
  }

  predicate InCompleteCross(l: Side, o: Direction) {
    (l.consumer.Link? || l.consumer.Head?) && l.car.outDir == o
  }

  /** The invariant. */
  ghost predicate Inv(s: State) {
    && Shaped(s)
    && (forall d: Direction :: SideOk(s.sides[d], d))
    && QuadsOk(s) && OutOk(s)
  }

  lemma OneOwner(s: State, d: Direction, e: Direction, q: Quadrant)
    requires |s.sides| == 4 && QuadsOk(s) && q in Held(s.sides[d]) && q in Held(s.sides[e])
    ensures d == e
  {
    OwnedBy(s.quads, HeldBy(s), d, q);
    OwnedBy(s.quads, HeldBy(s), e, q);
  }

  lemma InsideHoldsExit(l: Side, o: Direction)
    requires InCompleteCross(l, o)
    ensures ExitQuadrant(o) in Held(l)
  {
    PathHasExit(l.car.inDir, o);
  }

  /** No two threads are ever inside complete_cross for the same list. */
  lemma MutualExclusion(s: State, d: Direction, e: Direction, o: Direction)
    requires Inv(s) && InCompleteCross(s.sides[d], o) && InCompleteCross(s.sides[e], o)
    ensures d == e
  {
    InsideHoldsExit(s.sides[d], o);
    InsideHoldsExit(s.sides[e], o);
    OneOwner(s, d, e, ExitQuadrant(o));
  }

  // ----- steps in a lane

  /** From `l` to `l'` a lane locked no quadrant and did not touch a list. */
  ghost predicate SameCrossing(l: Side, l': Side) {
    && Held(l') == Held(l)
    && (l.consumer.Head? || l'.consumer.Head? ==> l'.consumer == l.consumer && l'.car == l.car)
  }

  lemma LocalKeeps(s: State, d: Direction, l: Side)
    requires Inv(s) && SideOk(l, d) && 0 < |l.ring.cells| && SameCrossing(s.sides[d], l)
    ensures Inv(s.(sides := s.sides[d := l]))
  {
    hide SideOk, Held, Owned;
    assert HeldBy(s.(sides := s.sides[d := l])) == HeldBy(s);
  }

  lemma LocalSteps(l: Side, d: Direction)
    requires SideOk(l, d)
    ensures CanArrive(l) ==> SameCrossing(l, ArriveStep(l))
    ensures CanTake(l) ==> SameCrossing(l, TakeStep(l))
    ensures l.producer.PWait? ==> SameCrossing(l, l.(producer := PWake))
    ensures l.consumer.CWait? ==> SameCrossing(l, l.(consumer := CWake))
  {
  }

  // ----- steps in the intersection

  lemma CrossPending(l: Side, list: seq<Car>, d: Direction)
    requires 0 < |l.ring.cells| && IsCrossing(l) && CarsOk(l, d)
    ensures Pending(l) == (if l.consumer.Head? then [l.car] else []) + Pending(CrossSide(l, list))
    ensures CarsOk(CrossSide(l, list), d)
  {
    var l' := CrossSide(l, list);
    assert Counted(l') == Counted(l) && l'.inCars == l.inCars && l'.car == l.car;
    if l.consumer.Head? {
      assert Pending(l') == Contents(Counted(l)) + l.inCars;
      assert Pending(l) == [l.car] + Pending(l');
    } else {
      assert Pending(l') == Pending(l);
    }
  }

  lemma CrossLocal(l: Side, list: seq<Car>)
    requires LockOk(l) && BufferOk(l) && WaitsOk(l) && IsCrossing(l)
    ensures LockOk(CrossSide(l, list)) && BufferOk(CrossSide(l, list)) && WaitsOk(CrossSide(l, list))
  {
    hide Route, RingOk;
    assert Counted(CrossSide(l, list)) == Counted(l);
  }

  lemma CrossRounds(l: Side, list: seq<Car>)
    requires RoundsOk(l) && IsCrossing(l)
    ensures RoundsOk(CrossSide(l, list))
  {
    hide ComputePath;
  }

  lemma CrossSideKeeps(l: Side, list: seq<Car>, d: Direction)
    requires SideOk(l, d) && 0 < |l.ring.cells| && IsCrossing(l)
    ensures SideOk(CrossSide(l, list), d)
    ensures Pending(l) == (if l.consumer.Head? then [l.car] else []) + Pending(CrossSide(l, list))
  {
    hide LockOk, BufferOk, RoundsOk, WaitsOk, CarsOk, Pending;
    CrossPending(l, list, d);
    CrossLocal(l, list);
    CrossRounds(l, list);
  }

  lemma AcquireHeld(l: Side, k: nat)
    requires l.consumer == Acquire(k) && k < |Route(l)|
    ensures Held(l.(consumer := Acquire(k + 1))) == Held(l) + {Route(l)[k]}
  {
    assert Route(l)[..k + 1] == Route(l)[..k] + [Route(l)[k]];
  }

  lemma RouteIncreases(l: Side)
    ensures forall i, j | 0 <= i < j < |Route(l)| :: Route(l)[i] < Route(l)[j]
  {
    PathIsRoute(l.car.inDir, l.car.outDir);
  }

  lemma ReleaseHeld(l: Side, k: nat)
    requires l.consumer == Release(k) && k < |Route(l)|
    ensures Route(l)[k] in Held(l)
    ensures Held(l.(consumer := Release(k + 1))) == Held(l) - {Route(l)[k]}
  {
    hide ComputePath;
    RouteIncreases(l);
    var p := Route(l);
    assert p[k..] == [p[k]] + p[k + 1..];
    assert p[k] !in p[k + 1..];
  }

  lemma OtherHeld(l: Side, list: seq<Car>)
    requires RoundsOk(l) && IsCrossing(l)
    requires (l.consumer.Acquire? || l.consumer.Release?) ==> l.consumer.k == |Route(l)|
    ensures Held(CrossSide(l, list)) == Held(l)
  {
    assert Route(l)[..|Route(l)|] == Route(l);
  }

  /** What a crossing step does to the quadrants it holds. */
  lemma CrossHeld(l: Side, list: seq<Car>, d: Direction, quads: map<Quadrant, Direction>, held: seq<set<Quadrant>>)
    requires RoundsOk(l) && IsCrossing(l) && Owned(quads, held) && held[d] == Held(l)
    requires l.consumer.Acquire? && l.consumer.k < |Route(l)| ==> Route(l)[l.consumer.k] !in quads
    ensures Owned(CrossLocks(quads, l, d), held[d := Held(CrossSide(l, list))])
  {
    if l.consumer.Acquire? && l.consumer.k < |Route(l)| {
      AcquireHeld(l, l.consumer.k);
      OwnedAdd(quads, held, d, Route(l)[l.consumer.k]);
    } else if l.consumer.Release? && l.consumer.k < |Route(l)| {
      ReleaseHeld(l, l.consumer.k);
      OwnedRemove(quads, held, d, Route(l)[l.consumer.k]);
    } else {
      OtherHeld(l, list);
      assert held[d := Held(l)] == held;
    }
  }

  lemma CrossQuads(s: State, d: Direction)
    requires Inv(s) && CanCross(s, s.sides[d])
    ensures QuadsOk(CrossStep(s, d))
  {
    var l := s.sides[d];
    assert SideOk(l, d);
    CrossHeld(l, s.out[l.car.outDir], d, s.quads, HeldBy(s));
    assert HeldBy(CrossStep(s, d)) == HeldBy(s)[d := Held(CrossSide(l, s.out[l.car.outDir]))];
  }

  lemma CrossOut(s: State, d: Direction)
    requires Inv(s) && CanCross(s, s.sides[d])
    ensures OutOk(CrossStep(s, d))
  {
    hide SideOk, QuadsOk, CrossLocks, Route;
    var l, s' := s.sides[d], CrossStep(s, d);
    if l.consumer.Head? {
      forall e: Direction | s'.sides[e].consumer.Head?
        ensures s'.sides[e].consumer.rest == s'.out[s'.sides[e].car.outDir]
      {
        if s.sides[e].car.outDir == l.car.outDir {
          MutualExclusion(s, d, e, l.car.outDir);
        }
      }
    }
  }

  lemma InvFromParts(s: State, d: Direction, l: Side, s': State)
    requires Inv(s) && s'.sides == s.sides[d := l] && |s'.out| == 4 && 0 < |l.ring.cells|
    requires SideOk(l, d) && QuadsOk(s') && OutOk(s')
    ensures Inv(s')
  {
  }

  lemma CrossCells(l: Side, list: seq<Car>)
    requires IsCrossing(l)
    ensures CrossSide(l, list).ring == l.ring
  {
  }

  lemma CrossKeeps(s: State, d: Direction)
    requires Inv(s) && CanCross(s, s.sides[d])
    ensures Inv(CrossStep(s, d))
  {
    var l := s.sides[d];
    CrossSideKeeps(l, s.out[l.car.outDir], d);
    CrossCells(l, s.out[l.car.outDir]);
    CrossQuads(s, d);
    CrossOut(s, d);
    InvFromParts(s, d, CrossSide(l, s.out[l.car.outDir]), CrossStep(s, d));
  }

  // ----- the invariant

  lemma ArriveInv(s: State, d: Direction)
    requires Inv(s) && CanArrive(s.sides[d])
    ensures Inv(s.(sides := s.sides[d := ArriveStep(s.sides[d])]))
  {
    ArriveKeeps(s.sides[d], d);
    LocalSteps(s.sides[d], d);
    LocalKeeps(s, d, ArriveStep(s.sides[d]));
  }

  lemma TakeInv(s: State, d: Direction)
    requires Inv(s) && CanTake(s.sides[d])
    ensures Inv(s.(sides := s.sides[d := TakeStep(s.sides[d])]))
  {
    TakeKeeps(s.sides[d], d);
    LocalSteps(s.sides[d], d);
    LocalKeeps(s, d, TakeStep(s.sides[d]));
  }

  lemma WakeInv(s: State, t: Thread)
    requires Inv(s) && CanWakeSpuriously(s, t)
    ensures Inv(SpuriousWake(s, t))
  {
    var d := t.d;
    WakeKeeps(s.sides[d], d);
    LocalSteps(s.sides[d], d);
    LocalKeeps(s, d, SpuriousWake(s, t).sides[d]);
  }

  /** Every step keeps the invariant. */
  lemma StepKeeps(s: State, s': State, t: Thread)
    requires Inv(s) && Shaped(s) && Step(s, s', t)
    ensures Inv(s')
  {
    if Enabled(s, t) && s' == Next(s, t) {
      if t.Arrive? {
        ArriveInv(s, t.d);
      } else if CanTake(s.sides[t.d]) {
        TakeInv(s, t.d);
      } else {
        CrossKeeps(s, t.d);
      }
    } else {
      WakeInv(s, t);
    }
  }

  lemma StartSide(l: Side, schedule: seq<Car>, d: Direction)
    requires 0 < |l.ring.cells| && StartsAt(l, schedule, d)
    ensures SideOk(l, d) && Held(l) == {} && Pending(l) == l.inCars
  {
    FromReversedDirs(schedule, d);
    assert Contents(l.ring) == [];
    assert Pending(l) == l.inCars;
  }

  lemma StartInv(s: State, schedule: seq<Car>)
    requires Start(s, schedule)
    ensures Inv(s)
  {
    forall d: Direction
      ensures SideOk(s.sides[d], d) && Held(s.sides[d]) == {}
    {
      StartSide(s.sides[d], schedule, d);
    }
    assert HeldBy(s) == [{}, {}, {}, {}];
  }
}

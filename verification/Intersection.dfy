/** The intersection as a transition system (A2/cars.c:182-299).

    Four arrival threads and four crossing threads run in any interleaving.  One
    step is one lock operation, wait, signal, or update; updates made by one
    helper call under a lock are one step.  `complete_cross` is two steps, since
    the list it prepends to has no lock of its own. */
module Intersection {
  import opened Turns
  import opened Lanes

  datatype Owner = Free | ByProducer | ByConsumer

  /** Where an arrival thread is: the operation it is about to do. */
  datatype Producer = PLock | PCheck | PWait | PWake | PWrite | PSignal | PUnlock | PDone

  /** Where a crossing thread is.  `Head` holds the value it read of `out_cars`. */
  datatype Consumer =
    | CLock | CCheck | CWait | CWake | CRead | CCount | CSignal | CUnlock
    | Acquire(k: nat) | Link | Head(rest: seq<Car>) | Passed | Release(k: nat)
    | CFree | CDone

  /** A lane and its two threads; `made` and `taken` are their loop counters, and
      `car` is the crossing thread's local variable. */
  datatype Side = Side(
    lock: Owner, inCars: seq<Car>, ring: Ring, inc: nat, passed: nat,
    producer: Producer, made: nat, consumer: Consumer, taken: nat, car: Car)

  /** `quads` maps each locked quadrant to the lane whose car holds it. */
  datatype State = State(sides: seq<Side>, quads: map<Quadrant, Direction>, out: seq<seq<Car>>)

  datatype Thread = Arrive(d: Direction) | Cross(d: Direction)

  ghost predicate Shaped(s: State) {
    |s.sides| == 4 && |s.out| == 4 && forall d: Direction :: 0 < |s.sides[d].ring.cells|
  }

  // ----- arrival threads

  /** At PWrite and CRead a thread that is not enabled would follow a null pointer
      or give up; Progress shows that this never happens. */
  predicate CanArrive(l: Side) {
    match l.producer
    case PLock => l.lock.Free?
    case PWake => l.lock.Free?
    case PWait => false
    case PWrite => l.ring.inBuf < |l.ring.cells| && l.inCars != [] && l.ring.tail < |l.ring.cells|
    case PDone => false
    case _ => true
  }

  function ArriveStep(l: Side): Side
    requires CanArrive(l)
  {
    match l.producer
    case PLock => l.(lock := ByProducer, producer := PCheck)
    case PWake => l.(lock := ByProducer, producer := PCheck)
    case PCheck =>
      if l.ring.inBuf == |l.ring.cells| then l.(lock := Free, producer := PWait) else l.(producer := PWrite)
    case PWrite => l.(ring := Write(l.ring, l.inCars[0]), inCars := l.inCars[1..], producer := PSignal)
    case PSignal => l.(producer := PUnlock, consumer := if l.consumer.CWait? then CWake else l.consumer)
    case PUnlock => l.(lock := Free, made := l.made + 1, producer := if l.made + 1 < l.inc then PLock else PDone)
  }

  // ----- crossing threads, in their lane

  predicate CanTake(l: Side) {
    match l.consumer
    case CLock => l.lock.Free?
    case CWake => l.lock.Free?
    case CRead => 0 < l.ring.inBuf && l.ring.head < |l.ring.cells|
    case CCount => 0 < l.ring.inBuf
    case CCheck => true
    case CSignal => true
    case CUnlock => true
    case CFree => true
    case _ => false
  }

  function TakeStep(l: Side): Side
    requires CanTake(l)
  {
    match l.consumer
    case CLock => l.(lock := ByConsumer, consumer := CCheck)
    case CWake => l.(lock := ByConsumer, consumer := CCheck)
    case CCheck => if l.ring.inBuf == 0 then l.(lock := Free, consumer := CWait) else l.(consumer := CRead)
    case CRead => l.(car := l.ring.cells[l.ring.head], ring := Advance(l.ring), consumer := CCount)
    case CCount => l.(ring := l.ring.(inBuf := l.ring.inBuf - 1), consumer := CSignal)
    case CSignal => l.(consumer := CUnlock, producer := if l.producer.PWait? then PWake else l.producer)
    case CUnlock => l.(lock := Free, consumer := Acquire(0))
    case CFree => l.(consumer := CDone)
  }

  // ----- crossing threads, in the intersection

  function Route(l: Side): seq<Quadrant> {
    ComputePath(l.car.inDir, l.car.outDir)
  }

  predicate IsCrossing(l: Side) {
    l.consumer.Acquire? || l.consumer.Link? || l.consumer.Head? || l.consumer.Passed? || l.consumer.Release?
  }

  predicate CanCross(s: State, l: Side) {
    match l.consumer
    case Acquire(k) => k < |Route(l)| ==> Route(l)[k] !in s.quads
    case Release(k) => true
    case _ => IsCrossing(l)
  }

  /** The crossing thread's own part of a step; `list` is the `out_cars` list its car
      goes to, which it reads before it writes. */
  function CrossSide(l: Side, list: seq<Car>): Side
    requires IsCrossing(l)
  {
    match l.consumer
    case Acquire(k) => l.(consumer := if k < |Route(l)| then Acquire(k + 1) else Link)
    case Link => l.(consumer := Head(list))
    case Head(rest) => l.(consumer := Passed)
    case Passed => l.(passed := l.passed + 1, consumer := Release(0))
    case Release(k) =>
      if k < |Route(l)| then l.(consumer := Release(k + 1))
      else l.(taken := l.taken + 1, consumer := if l.taken + 1 < l.inc then CLock else CFree)
  }

  /** What a step does to the quadrant locks. */
  function CrossLocks(quads: map<Quadrant, Direction>, l: Side, d: Direction): map<Quadrant, Direction> {
    match l.consumer
    case Acquire(k) => if k < |Route(l)| then quads[Route(l)[k] := d] else quads
    case Release(k) => if k < |Route(l)| then quads - {Route(l)[k]} else quads
    case _ => quads
  }

  /** What a step does to the lists of cars that have crossed. */
  function CrossLists(out: seq<seq<Car>>, l: Side): seq<seq<Car>>
    requires |out| == 4
  {
    match l.consumer
    case Head(rest) => out[l.car.outDir := [l.car] + rest]
    case _ => out
  }

  function CrossStep(s: State, d: Direction): State
    requires Shaped(s) && CanCross(s, s.sides[d])
  {
    var l := s.sides[d];
    State(s.sides[d := CrossSide(l, s.out[l.car.outDir])], CrossLocks(s.quads, l, d), CrossLists(s.out, l))
  }

  /** The lists of cars that have crossed, as the lanes hold them. */
  function OutLists(lanes: seq<Lane>): seq<seq<Car>>
    requires |lanes| == 4
    reads lanes
  {
    [lanes[0].outCars, lanes[1].outCars, lanes[2].outCars, lanes[3].outCars]
  }

  /** complete_cross, undisturbed: the Link and the Head step of the thread `l`, one after
      the other.  For every way in and out, the cars that have crossed are the ones before
      and then this car, if the way is its own. */
  method CompleteCross(car: Car, crossLane: Lane, ghost lanes: seq<Lane>, ghost l: Side)
    requires |lanes| == 4 && (forall i, j | 0 <= i < j < 4 :: lanes[i] != lanes[j]) && lanes[car.outDir] == crossLane
    requires l.consumer.Link? && l.car == car
    modifies crossLane`outCars
    ensures var linked := CrossSide(l, old(OutLists(lanes))[car.outDir]);
            OutLists(lanes) == CrossLists(CrossLists(old(OutLists(lanes)), l), linked)
    ensures forall d: Direction, o: Direction ::
              Reversed(FromTo(OutLists(lanes)[o], d, o))
              == old(Reversed(FromTo(OutLists(lanes)[o], d, o)))
                + if (d, o) == (car.inDir, car.outDir) then [car] else []
  {
    ghost var was := OutLists(lanes);
    var next := crossLane.outCars;
    crossLane.outCars := [car] + next;
    forall d: Direction, o: Direction
      ensures Reversed(FromTo(OutLists(lanes)[o], d, o))
           == Reversed(FromTo(was[o], d, o)) + if (d, o) == (car.inDir, car.outDir) then [car] else []
    {
      if o == car.outDir {
        CrossedLast(car, was[o], d, o);
      }
    }
  }

  /** The head of the list is the car that crossed last. */
  lemma CrossedLast(car: Car, crossed: seq<Car>, d: Direction, o: Direction)
    ensures Reversed(FromTo([car] + crossed, d, o))
         == Reversed(FromTo(crossed, d, o)) + if (d, o) == (car.inDir, car.outDir) then [car] else []
  {
    assert ([car] + crossed)[1..] == crossed;
    var own := (d, o) == (car.inDir, car.outDir);
    assert FromTo([car] + crossed, d, o) == (if own then [car] else []) + FromTo(crossed, d, o);
    if own {
      assert FromTo([car] + crossed, d, o)[1..] == FromTo(crossed, d, o);
    } else {
      assert FromTo([car] + crossed, d, o) == FromTo(crossed, d, o);
    }
  }

  // ----- the whole system

  predicate Enabled(s: State, t: Thread)
    requires |s.sides| == 4
  {
    match t
    case Arrive(d) => CanArrive(s.sides[d])
    case Cross(d) => CanTake(s.sides[d]) || CanCross(s, s.sides[d])
  }

  function Next(s: State, t: Thread): State
    requires Shaped(s) && Enabled(s, t)
  {
    match t
    case Arrive(d) => s.(sides := s.sides[d := ArriveStep(s.sides[d])])
    case Cross(d) =>
      if CanTake(s.sides[d]) then s.(sides := s.sides[d := TakeStep(s.sides[d])]) else CrossStep(s, d)
  }

  /** A wait that returns without a signal, as pthread_cond_wait may. */
  predicate CanWakeSpuriously(s: State, t: Thread)
    requires |s.sides| == 4
  {
    match t
    case Arrive(d) => s.sides[d].producer.PWait?
    case Cross(d) => s.sides[d].consumer.CWait?
  }

  function SpuriousWake(s: State, t: Thread): State
    requires Shaped(s) && CanWakeSpuriously(s, t)
  {
    match t
    case Arrive(d) => s.(sides := s.sides[d := s.sides[d].(producer := PWake)])
    case Cross(d) => s.(sides := s.sides[d := s.sides[d].(consumer := CWake)])
  }

  predicate Step(s: State, s': State, t: Thread)
    requires Shaped(s)
  {
    || (Enabled(s, t) && s' == Next(s, t))
    || (CanWakeSpuriously(s, t) && s' == SpuriousWake(s, t))
  }

  ghost predicate Done(s: State) {
    |s.sides| == 4 && forall d: Direction :: s.sides[d].producer.PDone? && s.sides[d].consumer.CDone?
  }

  /** Lane `d` and its threads at their beginning, with the cars of the schedule; the
      cells of the buffer hold anything. */
  ghost predicate StartsAt(l: Side, schedule: seq<Car>, d: Direction) {
    && l.lock.Free?
    && l.inCars == Reversed(From(schedule, d)) && l.inc == |l.inCars|
    && l.ring.head == l.ring.tail == l.ring.inBuf == 0 && l.passed == l.made == l.taken == 0
    && l.producer == (if 0 < l.inc then PLock else PDone)
    && l.consumer == (if 0 < l.inc then CLock else CFree)
  }

  ghost predicate Start(s: State, schedule: seq<Car>) {
    && Shaped(s) && s.quads == map[] && s.out == [[], [], [], []]
    && forall d: Direction :: StartsAt(s.sides[d], schedule, d)
  }
}

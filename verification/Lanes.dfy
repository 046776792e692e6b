/** Cars, and the circular buffer of a lane (A2/traffic.h:20-65, A2/cars.c:43-172). */
module Lanes {
  import opened Options
  import opened Turns

  datatype Car = Car(id: int, inDir: Direction, outDir: Direction)

  /** The buffer of a lane.  A `next` chain of cars is a sequence, head first. */
  datatype Ring = Ring(cells: seq<Car>, head: nat, tail: nat, inBuf: nat)

  ghost predicate RingOk(r: Ring) {
    && r.head < |r.cells| && r.inBuf <= |r.cells|
    && r.tail == (r.head + r.inBuf) % |r.cells|
  }

  /** The cars in the buffer, oldest first. */
  ghost function Contents(r: Ring): (s: seq<Car>)
    requires 0 < |r.cells|
    ensures |s| == r.inBuf
  {
    seq(r.inBuf, i requires 0 <= i => r.cells[(r.head + i) % |r.cells|])
  }

  function Write(r: Ring, car: Car): Ring
    requires r.tail < |r.cells|
  {
    r.(cells := r.cells[r.tail := car], inBuf := r.inBuf + 1, tail := (r.tail + 1) % |r.cells|)
  }

  /** The head moves on; the count follows later (A2/cars.c:258). */
  function Advance(r: Ring): Ring
    requires 0 < |r.cells|
  {
    r.(head := (r.head + 1) % |r.cells|)
  }

  lemma Wrap(x: nat, c: nat)
    requires 0 < c && x < 2 * c
    ensures x % c == if x < c then x else x - c
  {
    if x >= c {
      ModOnce(x - c, c);
    }
  }

  lemma ModOnce(y: nat, c: nat)
    requires y < c
    ensures (y + c) % c == y
  {
    assert (y + c) / c == 1;
  }

  /** A write appends to the contents. */
  lemma WriteAppends(r: Ring, car: Car)
    requires RingOk(r) && r.inBuf < |r.cells|
    ensures RingOk(Write(r, car)) && Contents(Write(r, car)) == Contents(r) + [car]
  {
    var c, w := |r.cells|, Write(r, car);
    Wrap(r.head + r.inBuf, c);
    Wrap(r.tail + 1, c);
    Wrap(r.head + r.inBuf + 1, c);
    forall i | 0 <= i < r.inBuf
      ensures Contents(w)[i] == Contents(r)[i]
    {
      Wrap(r.head + i, c);
    }
  }

  /** Moving the head on and counting down takes the oldest car off the contents. */
  lemma ReadTakes(r: Ring)
    requires RingOk(r) && r.inBuf > 0
    ensures Contents(r)[0] == r.cells[r.head]
    ensures var r' := Advance(r).(inBuf := r.inBuf - 1); RingOk(r') && Contents(r') == Contents(r)[1..]
  {
    var c, r' := |r.cells|, Advance(r).(inBuf := r.inBuf - 1);
    Wrap(r.head, c);
    Wrap(r.head + 1, c);
    Wrap(r.head + r.inBuf, c);
    Wrap(r'.head + r'.inBuf, c);
    forall i | 0 <= i < r.inBuf - 1
      ensures Contents(r')[i] == Contents(r)[i + 1]
    {
      Wrap(r'.head + i, c);
      Wrap(r.head + i + 1, c);
    }
  }

  /** The fields of `struct lane` that the helper functions update. */
  class Lane {
    var inCars: seq<Car>
    var outCars: seq<Car>
    var inc: nat
    const buffer: array<Car>
    var head: nat
    var tail: nat
    var inBuf: nat

    /** The buffer as a value. */
    ghost function View(): Ring
      reads this, buffer
    {
      Ring(buffer[..], head, tail, inBuf)
    }

    ghost predicate Valid()
      reads this, buffer
    {
      RingOk(View())
    }

    constructor (capacity: nat)
      requires 0 < capacity
      ensures Valid() && fresh(buffer) && buffer.Length == capacity
      ensures inCars == outCars == [] && inc == 0 && Contents(View()) == []
    {
      inCars, outCars, inc, head, tail, inBuf := [], [], 0, 0, 0, 0;
      buffer := new Car[capacity](_ => Car(0, NORTH, NORTH));
    }

    /** Moves the head of `in_cars` to the buffer, unless the buffer is full. */
    method WriteToBuf()
      requires Valid() && (inBuf < buffer.Length ==> inCars != [])
      modifies this, buffer
      ensures Valid() && outCars == old(outCars) && inc == old(inc)
      ensures old(inBuf) == buffer.Length ==> View() == old(View()) && inCars == old(inCars)
      ensures old(inBuf) < buffer.Length ==>
                && View() == Write(old(View()), old(inCars)[0]) && inCars == old(inCars)[1..]
                && Contents(View()) == old(Contents(View())) + [old(inCars)[0]]
    {
      if inBuf != buffer.Length {
        ghost var was, cells := View(), buffer[..];
        WriteAppends(was, inCars[0]);
        buffer[tail] := inCars[0];
        assert buffer[..] == cells[tail := inCars[0]];
        inBuf := inBuf + 1;
        inCars := inCars[1..];
        tail := (tail + 1) % buffer.Length;
        assert View() == Write(was, old(inCars)[0]);
      }
    }

    /** The oldest car in the buffer, or none; the caller counts it out. */
    method ReadFromBuf() returns (car: Option<Car>)
      requires Valid()
      modifies this`head
      ensures car.None? <==> inBuf == 0
      ensures inBuf == 0 ==> View() == old(View())
      ensures inBuf > 0 ==>
                && View() == Advance(old(View())) && car == Some(old(Contents(View()))[0])
                && RingOk(View().(inBuf := inBuf - 1))
                  && Contents(View().(inBuf := inBuf - 1)) == old(Contents(View()))[1..]
    {
      if inBuf != 0 {
        ReadTakes(View());
        car := Some(buffer[head]);
        head := (head + 1) % buffer.Length;
        return;
      }
      return None;
    }
  }

  // ----- the schedule

  /** The cars of a list that come from `d` and go to `o`, in order. */
  function FromTo(s: seq<Car>, d: Direction, o: Direction): seq<Car> {
    if s == [] then []
    else (if s[0].inDir == d && s[0].outDir == o then [s[0]] else []) + FromTo(s[1..], d, o)
  }

  function From(s: seq<Car>, d: Direction): seq<Car> {
    if s == [] then [] else (if s[0].inDir == d then [s[0]] else []) + From(s[1..], d)
  }

  function Reversed(s: seq<Car>): (r: seq<Car>)
    ensures |r| == |s|
  {
    if s == [] then [] else Reversed(s[1..]) + [s[0]]
  }

  lemma Append3(a: seq<Car>, b: seq<Car>, c: seq<Car>)
    ensures a + b + c == a + (b + c)
  {
  }

  lemma {:induction false} FromToConcat(s: seq<Car>, t: seq<Car>, d: Direction, o: Direction)
    ensures FromTo(s + t, d, o) == FromTo(s, d, o) + FromTo(t, d, o)
  {
    if s == [] {
      assert s + t == t;
    } else {
      FromToConcat(s[1..], t, d, o);
      assert (s + t)[0] == s[0] && (s + t)[1..] == s[1..] + t;
      Append3(if s[0].inDir == d && s[0].outDir == o then [s[0]] else [], FromTo(s[1..], d, o), FromTo(t, d, o));
    }
  }

  /** Every car on its way from `d` to `o` occurs as often as in the list, others do not. */
  lemma {:induction false} FromToCounts(s: seq<Car>, d: Direction, o: Direction, c: Car)
    ensures multiset(FromTo(s, d, o))[c] == if c.inDir == d && c.outDir == o then multiset(s)[c] else 0
  {
    if s != [] {
      FromToCounts(s[1..], d, o, c);
      assert s == [s[0]] + s[1..];
    }
  }

  lemma {:induction false} FromConcat(s: seq<Car>, t: seq<Car>, d: Direction)
    ensures From(s + t, d) == From(s, d) + From(t, d)
  {
    if s == [] {
      assert s + t == t;
    } else {
      FromConcat(s[1..], t, d);
      assert (s + t)[0] == s[0] && (s + t)[1..] == s[1..] + t;
      Append3(if s[0].inDir == d then [s[0]] else [], From(s[1..], d), From(t, d));
    }
  }

  lemma {:induction false} ReversedConcat(s: seq<Car>, t: seq<Car>)
    ensures Reversed(s + t) == Reversed(t) + Reversed(s)
  {
    if s == [] {
      assert s + t == t;
    } else {
      ReversedConcat(s[1..], t);
      assert (s + t)[0] == s[0] && (s + t)[1..] == s[1..] + t;
      Append3(Reversed(t), Reversed(s[1..]), [s[0]]);
    }
  }

  lemma {:induction false} ReversedTwice(s: seq<Car>)
    ensures Reversed(Reversed(s)) == s
  {
    if s != [] {
      ReversedTwice(s[1..]);
      ReversedConcat(Reversed(s[1..]), [s[0]]);
      assert Reversed([s[0]]) == [s[0]];
    }
  }

  lemma {:induction false} FromToReversed(s: seq<Car>, d: Direction, o: Direction)
    ensures FromTo(Reversed(s), d, o) == Reversed(FromTo(s, d, o))
  {
    if s != [] {
      FromToReversed(s[1..], d, o);
      FromToConcat(Reversed(s[1..]), [s[0]], d, o);
      var first := if s[0].inDir == d && s[0].outDir == o then [s[0]] else [];
      assert FromTo([s[0]], d, o) == first;
      ReversedConcat(first, FromTo(s[1..], d, o));
      assert Reversed(first) == first;
    }
  }

  lemma {:induction false} FromToOfFrom(s: seq<Car>, d: Direction, o: Direction)
    ensures FromTo(From(s, d), d, o) == FromTo(s, d, o)
  {
    if s != [] {
      FromToOfFrom(s[1..], d, o);
      if s[0].inDir == d {
        assert From(s, d)[1..] == From(s[1..], d);
      } else {
        assert From(s, d) == From(s[1..], d);
      }
    }
  }

  lemma {:induction false} FromReversedDirs(s: seq<Car>, d: Direction)
    ensures forall c | c in Reversed(From(s, d)) :: c.inDir == d
  {
    if s != [] {
      FromReversedDirs(s[1..], d);
      var first := if s[0].inDir == d then [s[0]] else [];
      ReversedConcat(first, From(s[1..], d));
    }
  }

  lemma FromAppend(s: seq<Car>, car: Car, d: Direction)
    ensures From(s + [car], d) == From(s, d) + if car.inDir == d then [car] else []
    ensures Reversed(From(s + [car], d)) == (if car.inDir == d then [car] else []) + Reversed(From(s, d))
  {
    FromConcat(s, [car], d);
    if car.inDir == d {
      assert From([car], d) == [car];
      ReversedConcat(From(s, d), [car]);
      assert Reversed([car]) == [car];
    } else {
      assert From(s + [car], d) == From(s, d) + [] == From(s, d);
    }
  }

  /** What one more line adds to the list of direction `d`. */
  lemma NextLine(file: seq<Car>, i: nat, d: Direction)
    requires i < |file|
    ensures var more := if file[i].inDir == d then [file[i]] else [];
            && |From(file[..i + 1], d)| == |From(file[..i], d)| + |more|
            && Reversed(From(file[..i + 1], d)) == more + Reversed(From(file[..i], d))
  {
    assert file[..i + 1] == file[..i] + [file[i]];
    FromAppend(file[..i], file[i], d);
  }

  lemma NoLines()
    ensures forall d: Direction :: From([], d) == [] && Reversed(From([], d)) == []
  {
  }

  /** parse_schedule: every car goes to the head of the list of its lane, so the
      lists hold the cars of each direction last line first. */
  method ParseSchedule(file: seq<Car>, lanes: seq<Lane>)
    requires |lanes| == 4 && forall d, e | 0 <= d < e < 4 :: lanes[d] != lanes[e]
    requires forall d | 0 <= d < 4 :: lanes[d].inCars == [] && lanes[d].inc == 0
    modifies set d | 0 <= d < 4 :: lanes[d]`inCars
    modifies set d | 0 <= d < 4 :: lanes[d]`inc
    ensures forall d: Direction :: lanes[d].inCars == Reversed(From(file, d)) && lanes[d].inc == |From(file, d)|
  {
    hide From, Reversed;
    NoLines();
    for i := 0 to |file|
      invariant forall d: Direction ::
                  lanes[d].inCars == Reversed(From(file[..i], d)) && lanes[d].inc == |From(file[..i], d)|
    {
      var car := file[i];
      forall d: Direction {
        NextLine(file, i, d);
      }
      var lane := lanes[car.inDir];
      lane.inCars := [car] + lane.inCars;
      lane.inc := lane.inc + 1;
    }
    assert file[..|file|] == file;
  }
}

/** Turns and the quadrants they pass (A2/cars.c:14-28,308-439, A2/traffic.h:67-79).

    The quadrants are numbered counterclockwise from the north-east.  A car from
    direction `inDir` enters at the quadrant on its own right-hand side and goes
    counterclockwise. */
module Turns {
  import opened Options

  type Direction = d: nat | d < 4
  const NORTH: Direction := 0
  const WEST: Direction := 1
  const SOUTH: Direction := 2
  const EAST: Direction := 3

  type Quadrant = q: nat | 1 <= q <= 4 witness 1

  datatype Turn = RightTurn | NoTurn | LeftTurn | UTurn

  /** The values of `enum turn`, which are also the numbers of quadrants passed. */
  function Quads(t: Turn): nat {
    match t
    case RightTurn => 1
    case NoTurn => 2
    case LeftTurn => 3
    case UTurn => 4
  }

  /** None where the program prints an error and exits. */
  function ComputeTurn(inDir: int, outDir: int): Option<Turn> {
    if (inDir < 0 || inDir > 3) || (outDir < 0 || outDir > 3) then None
    else if inDir == outDir then Some(UTurn)
    else if (inDir + 1) % 4 - outDir == 0 then Some(RightTurn)
    else if inDir - (outDir + 1) % 4 == 0 then Some(LeftTurn)
    else Some(NoTurn)
  }

  /** The table of build_path_array. */
  function Path(inDir: Direction, t: Turn): seq<Quadrant> {
    match t
    case UTurn => [1, 2, 3, 4]
    case RightTurn =>
      if inDir == NORTH then [2] else if inDir == WEST then [3] else if inDir == SOUTH then [4] else [1]
    case LeftTurn =>
      if inDir == NORTH then [2, 3, 4] else if inDir == WEST then [1, 3, 4]
      else if inDir == SOUTH then [1, 2, 4] else [1, 2, 3]
    case NoTurn =>
      if inDir == NORTH then [2, 3] else if inDir == WEST then [3, 4]
      else if inDir == SOUTH then [1, 4] else [1, 2]
  }

  function ComputePath(inDir: Direction, outDir: Direction): seq<Quadrant> {
    Path(inDir, ComputeTurn(inDir, outDir).value)
  }

  /** The `i`-th quadrant, counterclockwise, on the way from `inDir`. */
  function OnTheWay(inDir: Direction, i: nat): Quadrant {
    (inDir + 1 + i) % 4 + 1
  }

  /** The quadrant through which a car leaves towards `outDir`. */
  function ExitQuadrant(outDir: Direction): Quadrant {
    outDir + 1
  }

  /** A turn passes as many quadrants as it takes to come round to the way out. */
  lemma TurnReachesExit(inDir: Direction, outDir: Direction)
    ensures ComputeTurn(inDir, outDir).Some?
    ensures var n := Quads(ComputeTurn(inDir, outDir).value);
            OnTheWay(inDir, n - 1) == ExitQuadrant(outDir)
            && forall i: nat | i < n - 1 :: OnTheWay(inDir, i) != ExitQuadrant(outDir)
  {
    var n := Quads(ComputeTurn(inDir, outDir).value);
    assert n == if outDir > inDir then outDir - inDir else outDir + 4 - inDir;
    forall i: nat | i < n
      ensures OnTheWay(inDir, i) == if inDir + 1 + i < 4 then inDir + i + 2 else inDir + i - 2
    {
    }
  }

  /** The program gives up exactly on directions out of range. */
  lemma TurnRejects(inDir: int, outDir: int)
    ensures ComputeTurn(inDir, outDir).None? <==> !(0 <= inDir < 4 && 0 <= outDir < 4)
  {
  }

  /** How many quadrants are passed before quadrant `q`. */
  function Place(inDir: Direction, q: Quadrant): nat {
    if q >= inDir + 2 then q - inDir - 2 else q + 2 - inDir
  }

  lemma PlaceOnTheWay(inDir: Direction, q: Quadrant, i: nat)
    requires i < 4
    ensures Place(inDir, q) < 4 && OnTheWay(inDir, Place(inDir, q)) == q
    ensures Place(inDir, OnTheWay(inDir, i)) == i
  {
  }

  /** A row of the table has the quadrants passed first, as many as the turn says. */
  lemma RowMembers(inDir: Direction, t: Turn, q: Quadrant)
    ensures |Path(inDir, t)| == Quads(t)
    ensures q in Path(inDir, t) <==> Place(inDir, q) < Quads(t)
  {
    var p := Path(inDir, t);
    match t {
      case RightTurn => assert q in p <==> q == p[0];
      case NoTurn => assert q in p <==> q == p[0] || q == p[1];
      case LeftTurn => assert q in p <==> q == p[0] || q == p[1] || q == p[2];
      case UTurn => assert q in p <==> q == p[0] || q == p[1] || q == p[2] || q == p[3];
    }
  }

  lemma RowIncreases(inDir: Direction, t: Turn)
    ensures forall i, j | 0 <= i < j < |Path(inDir, t)| :: Path(inDir, t)[i] < Path(inDir, t)[j]
  {
  }

  /** A path lists, in strictly increasing order, exactly the quadrants on the way
      up to and including the way out. */
  lemma PathIsRoute(inDir: Direction, outDir: Direction)
    ensures var p, n := ComputePath(inDir, outDir), Quads(ComputeTurn(inDir, outDir).value);
            && |p| == n
            && (forall i, j | 0 <= i < j < n :: p[i] < p[j])
            && (forall i: nat | i < n :: OnTheWay(inDir, i) in p)
            && (forall q | q in p :: exists i: nat :: i < n && OnTheWay(inDir, i) == q)
  {
    RowIsRoute(inDir, ComputeTurn(inDir, outDir).value);
  }

  lemma RowIsRoute(inDir: Direction, t: Turn)
    ensures var p, n := Path(inDir, t), Quads(t);
            && |p| == n
            && (forall i, j | 0 <= i < j < n :: p[i] < p[j])
            && (forall i: nat | i < n :: OnTheWay(inDir, i) in p)
            && (forall q | q in p :: exists i: nat :: i < n && OnTheWay(inDir, i) == q)
  {
    RowMembers(inDir, t, 1);
    RowIncreases(inDir, t);
    forall i: nat | i < Quads(t)
      ensures OnTheWay(inDir, i) in Path(inDir, t)
    {
      PlaceOnTheWay(inDir, 1, i);
      RowMembers(inDir, t, OnTheWay(inDir, i));
    }
    forall q | q in Path(inDir, t)
      ensures exists i: nat :: i < Quads(t) && OnTheWay(inDir, i) == q
    {
      PlaceOnTheWay(inDir, q, 0);
      RowMembers(inDir, t, q);
      assert OnTheWay(inDir, Place(inDir, q)) == q;
    }
  }

  lemma PathHasExit(inDir: Direction, outDir: Direction)
    ensures ExitQuadrant(outDir) in ComputePath(inDir, outDir)
  {
    TurnReachesExit(inDir, outDir);
    PathIsRoute(inDir, outDir);
  }

  /** build_path_array: the array it fills is the table row. */
  method BuildPathArray(inDir: Direction, t: Turn) returns (path: array<Quadrant>)
    ensures fresh(path) && path[..] == Path(inDir, t)
  {
    var arrSize := Quads(t);
    path := new Quadrant[arrSize];
    match t {
      case UTurn =>
        for i := 0 to arrSize
          invariant forall k | 0 <= k < i :: path[k] == k + 1
        {
          path[i] := i + 1;
        }
      case RightTurn =>
        path[0] := if inDir == NORTH then 2 else if inDir == WEST then 3 else if inDir == SOUTH then 4 else 1;
      case LeftTurn =>
        if inDir == NORTH {
          path[0], path[1], path[2] := 2, 3, 4;
        } else if inDir == WEST {
          path[0], path[1], path[2] := 1, 3, 4;
        } else if inDir == SOUTH {
          path[0], path[1], path[2] := 1, 2, 4;
        } else {
          path[0], path[1], path[2] := 1, 2, 3;
        }
      case NoTurn =>
        if inDir == NORTH {
          path[0], path[1] := 2, 3;
        } else if inDir == WEST {
          path[0], path[1] := 3, 4;
        } else if inDir == SOUTH {
          path[0], path[1] := 1, 4;
        } else {
          path[0], path[1] := 1, 2;
        }
    }
  }
}

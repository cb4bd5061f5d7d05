/** The grid motion engine: turning left or right through fixed cycle
    tables, and one bounds-checked step forward. All of it is pure. */
module RobotUtils {
  import opened Types

  /** The table a left turn walks through: N -> W -> S -> E -> N. */
  const LeftCycle: seq<Direction> := [N, W, S, E]

  /** The table a right turn walks through: N -> E -> S -> W -> N. */
  const RightCycle: seq<Direction> := [N, E, S, W]

  /** The first index at or after `from` where `d` occurs in `s`, or -1 when
      there is none. */
  function IndexOfFrom(s: seq<Direction>, d: Direction, from: nat): (i: int)
    requires from <= |s|
    ensures i == -1 || from <= i < |s|
    decreases |s| - from
  {
    if from == |s| then -1
    else if s[from] == d then from
    else IndexOfFrom(s, d, from + 1)
  }

  /** The first index of `d` in `s`, or -1 when `d` does not occur
      (the behaviour of an array's `indexOf`). */
  function IndexOf(s: seq<Direction>, d: Direction): (i: int)
    ensures -1 <= i < |s|
  {
    IndexOfFrom(s, d, 0)
  }

  lemma {:induction false} IndexOfFromFirst(s: seq<Direction>, d: Direction, from: nat)
    requires from <= |s|
    ensures var i := IndexOfFrom(s, d, from);
      && (i == -1 <==> d !in s[from..])
      && (0 <= i ==> s[i] == d && d !in s[from..i])
    decreases |s| - from
  {
    if from < |s| && s[from] != d {
      IndexOfFromFirst(s, d, from + 1);
      assert s[from..] == [s[from]] + s[from + 1..];
      var i := IndexOfFrom(s, d, from);
      if 0 <= i {
        assert s[from..i] == [s[from]] + s[from + 1..i];
      }
    }
  }

  /** `IndexOf` finds the first occurrence, and reports -1 exactly when
      there is none. */
  lemma IndexOfFirst(s: seq<Direction>, d: Direction)
    ensures var i := IndexOf(s, d);
      && (i == -1 <==> d !in s)
      && (0 <= i ==> s[i] == d && d !in s[..i])
  {
    IndexOfFromFirst(s, d, 0);
    assert s[0..] == s;
  }

  /** The entry after `d` in `cycle`, wrapping round at the end. */
  function Successor(cycle: seq<Direction>, d: Direction): (r: Direction)
    requires |cycle| > 0
  {
    cycle[(IndexOf(cycle, d) + 1) % |cycle|]
  }

  /** A quarter turn counter-clockwise. */
  function TurnLeft(d: Direction): (r: Direction)
    ensures r == match d
                 case N => W
                 case W => S
                 case S => E
                 case E => N
  {
    Successor(LeftCycle, d)
  }

  /** A quarter turn clockwise. */
  function TurnRight(d: Direction): (r: Direction)
    ensures r == match d
                 case N => E
                 case E => S
                 case S => W
                 case W => N
  {
    Successor(RightCycle, d)
  }

  /** Clockwise quarter turns from North: an independent numbering of the
      compass used to state what repeated turning does. */
  function Ordinal(d: Direction): (k: nat)
    ensures k < 4
  {
    match d
    case N => 0
    case E => 1
    case S => 2
    case W => 3
  }

  lemma OrdinalInjective(a: Direction, b: Direction)
    ensures Ordinal(a) == Ordinal(b) <==> a == b
  {
  }

  /** The direction `k` quarter turns clockwise from North. */
  function FromOrdinal(k: int): (d: Direction)
    ensures Ordinal(d) == k % 4
  {
    var m := k % 4;
    if m == 0 then N else if m == 1 then E else if m == 2 then S else W
  }

  /** A direction is determined by its quarter-turn count modulo four. */
  lemma DirectionOfOrdinal(d: Direction, k: int)
    requires Ordinal(d) == k % 4
    ensures d == FromOrdinal(k)
  {
    OrdinalInjective(d, FromOrdinal(k));
  }

  /** A right turn adds one quarter turn, a left turn takes one away. */
  lemma TurnOrdinals(d: Direction)
    ensures Ordinal(TurnRight(d)) == (Ordinal(d) + 1) % 4
    ensures Ordinal(TurnLeft(d)) == (Ordinal(d) - 1) % 4
  {
  }

  /** Each turn undoes the other. */
  lemma TurnsAreInverse(d: Direction)
    ensures TurnRight(TurnLeft(d)) == d
    ensures TurnLeft(TurnRight(d)) == d
  {
  }

  /** Reducing modulo four before adding changes nothing. */
  lemma ModFourShift(a: int, b: int)
    ensures (a % 4 + b) % 4 == (a + b) % 4
  {
    var q := a / 4;
    assert a == 4 * q + a % 4;
    assert a + b == 4 * q + (a % 4 + b);
  }

  /** Four turns the same way bring every direction back to itself. */
  lemma TurnsHaveOrderFour(d: Direction)
    ensures TurnLeft(TurnLeft(TurnLeft(TurnLeft(d)))) == d
    ensures TurnRight(TurnRight(TurnRight(TurnRight(d)))) == d
  {
  }

  /** The unit step along x for each facing: East +1, West -1. */
  function DeltaX(d: Direction): int
  {
    match d
    case E => 1
    case W => -1
    case _ => 0
  }

  /** The unit step along y for each facing: North -1, South +1
      (y grows towards the far side of the room). */
  function DeltaY(d: Direction): int
  {
    match d
    case N => -1
    case S => 1
    case _ => 0
  }

  /** The cell one step ahead of `p`, facing the same way. */
  function Ahead(p: Position): Position
  {
    Position(p.x + DeltaX(p.direction), p.y + DeltaY(p.direction), p.direction)
  }

  /** `a` and `b` are neighbouring cells: one unit apart along exactly one axis. */
  predicate Adjacent(a: Position, b: Position)
  {
    (a.x == b.x && (b.y == a.y + 1 || b.y == a.y - 1)) ||
    (a.y == b.y && (b.x == a.x + 1 || b.x == a.x - 1))
  }

  /** One step forward, or None when the step would leave the room. Only the
      candidate cell is checked; `p` itself may lie anywhere. */
  function MoveForward(p: Position, room: Room): (r: Option<Position>)
    ensures r == if InRoom(Ahead(p), room) then Some(Ahead(p)) else None
    ensures r.Some? ==> InRoom(r.value, room) && r.value.direction == p.direction
    ensures r.Some? ==> Adjacent(p, r.value)
  {
    var (x, y) :=
      match p.direction
      case N => (p.x, p.y - 1)
      case E => (p.x + 1, p.y)
      case S => (p.x, p.y + 1)
      case W => (p.x - 1, p.y);
    if x < 0 || y < 0 || x >= room.width || y >= room.depth then None
    else Some(Position(x, y, p.direction))
  }

  /** From inside the room, a step fails exactly when the robot stands on the
      wall it faces. */
  lemma MoveForwardFailsAtFacedWall(p: Position, room: Room)
    requires InRoom(p, room)
    ensures MoveForward(p, room).None? <==>
      match p.direction
      case N => p.y == 0
      case E => p.x == room.width - 1
      case S => p.y == room.depth - 1
      case W => p.x == 0
  {
  }

  /** A successful step from inside the room can be walked back: turn
      round, step, and the robot is on its starting cell again. */
  lemma MoveForwardReversible(p: Position, room: Room)
    requires InRoom(p, room)
    requires MoveForward(p, room).Some?
    ensures var q := MoveForward(p, room).value;
      var back := TurnLeft(TurnLeft(p.direction));
      MoveForward(q.(direction := back), room) == Some(p.(direction := back))
  {
  }

  /** The worked cases for a 5 x 5 room; the last shows that a start
      outside the room is not itself rejected. */
  lemma MoveForwardExamples()
    ensures MoveForward(Position(2, 2, N), Room(5, 5)) == Some(Position(2, 1, N))
    ensures MoveForward(Position(2, 2, E), Room(5, 5)) == Some(Position(3, 2, E))
    ensures MoveForward(Position(0, 2, W), Room(5, 5)) == None
    ensures MoveForward(Position(2, 0, N), Room(5, 5)) == None
    ensures MoveForward(Position(3, 3, S), Room(5, 5)) == Some(Position(3, 4, S))
    ensures MoveForward(Position(-1, 0, E), Room(5, 5)) == Some(Position(0, 0, E))
  {
  }
}

/** The command interpreter of the simulator component: a command string is
    folded over the robot's position, one character at a time, publishing the
    new position after every command that succeeds and stopping at the first
    move that would leave the room or the first unknown character. */
module RobotSimulator {
  import opened Types
  import opened RobotUtils

  /** Why a run stops early: a forward move refused (with the coordinates
      the robot held before that move), or an unknown command character. */
  datatype Abort = OutOfBounds(x: int, y: int) | InvalidCommand

  /** How a run ends: every command applied, or stopped by an abort. */
  datatype Outcome = Done | Aborted(reason: Abort)

  /** The positions published during a run, in order, and how it ended. */
  datatype Execution = Execution(trace: seq<Position>, outcome: Outcome)

  /** What a single command does to the held position: move on to a new
      position, or halt the run. */
  datatype Step = Next(q: Position) | Halt(reason: Abort)

  /** `trace` published first, then whatever `rest` publishes. */
  function Append(trace: seq<Position>, rest: Execution): Execution
  {
    Execution(trace + rest.trace, rest.outcome)
  }

  /** The position the interpreter holds after publishing `trace`
      from `start`. */
  function Latest(start: Position, trace: seq<Position>): Position
  {
    if trace == [] then start else trace[|trace| - 1]
  }

  /** The loop of the interpreter, for any meaning of a single command:
      apply the commands in order, publish each new position, and stop at
      the first command that halts. */
  function Interpret(step: (Position, char) -> Step, p: Position, cmds: string): (e: Execution)
    ensures |e.trace| <= |cmds|
    ensures e.outcome.Done? <==> |e.trace| == |cmds|
    decreases |cmds|
  {
    if cmds == [] then Execution([], Done)
    else
      match step(p, cmds[0])
      case Halt(reason) => Execution([], Aborted(reason))
      case Next(q) => Append([q], Interpret(step, q, cmds[1..]))
  }

  /** A first command that succeeds publishes its position and hands the
      rest of the string on from there. */
  lemma InterpretNext(step: (Position, char) -> Step, p: Position, cmds: string)
    requires cmds != [] && step(p, cmds[0]).Next?
    ensures var q := step(p, cmds[0]).q;
      var tail := Interpret(step, q, cmds[1..]);
      && Interpret(step, p, cmds) == Append([q], tail)
      && Latest(p, Interpret(step, p, cmds).trace) == Latest(q, tail.trace)
  {
    var q := step(p, cmds[0]).q;
    var tail := Interpret(step, q, cmds[1..]);
    assert Latest(p, [q] + tail.trace) == Latest(q, tail.trace);
  }

  /** Interpreting `a + b` is interpreting `a` and, only if that completed,
      interpreting `b` from where `a` left the robot: commands apply strictly
      in order, and an abort discards everything after it. */
  lemma {:induction false} InterpretConcat(step: (Position, char) -> Step, p: Position, a: string, b: string)
    ensures var first := Interpret(step, p, a);
      Interpret(step, p, a + b) ==
        if first.outcome.Done? then Append(first.trace, Interpret(step, Latest(p, first.trace), b))
        else first
    decreases |a|
  {
    if a == [] {
      assert a + b == b;
    } else {
      assert (a + b)[0] == a[0];
      assert (a + b)[1..] == a[1..] + b;
      match step(p, a[0])
      case Halt(_) =>
      case Next(q) =>
        InterpretConcat(step, q, a[1..], b);
        var tail := Interpret(step, q, a[1..]);
        assert Latest(p, [q] + tail.trace) == Latest(q, tail.trace);
        assert ([q] + tail.trace) + Interpret(step, Latest(q, tail.trace), b).trace
            == [q] + (tail.trace + Interpret(step, Latest(q, tail.trace), b).trace);
    }
  }

  /** The first `i` published positions come from the first `i` commands
      alone. */
  lemma InterpretPrefix(step: (Position, char) -> Step, p: Position, cmds: string, i: nat)
    requires i <= |Interpret(step, p, cmds).trace|
    ensures Interpret(step, p, cmds[..i]) == Execution(Interpret(step, p, cmds).trace[..i], Done)
  {
    assert cmds == cmds[..i] + cmds[i..];
    InterpretConcat(step, p, cmds[..i], cmds[i..]);
  }

  /** A run that stops early stops at command number |trace|, and it is that
      command, applied to the position held at that moment, that halts. */
  lemma {:induction false} InterpretAbort(step: (Position, char) -> Step, p: Position, cmds: string)
    requires !Interpret(step, p, cmds).outcome.Done?
    ensures var e := Interpret(step, p, cmds);
      var k := |e.trace|;
      k < |cmds| && step(Latest(p, e.trace), cmds[k]) == Halt(e.outcome.reason)
    decreases |cmds|
  {
    match step(p, cmds[0])
    case Halt(_) =>
    case Next(q) =>
      var tail := Interpret(step, q, cmds[1..]);
      InterpretAbort(step, q, cmds[1..]);
      assert cmds[|tail.trace| + 1] == cmds[1..][|tail.trace|];
      assert Latest(p, [q] + tail.trace) == Latest(q, tail.trace);
  }

  /** The command characters the interpreter knows. */
  predicate IsCommand(c: char)
  {
    c == 'L' || c == 'R' || c == 'F'
  }

  /** One command applied to `p`: `L` and `R` turn in place, `F` steps
      forward unless that would leave the room, and any other character
      is refused. */
  function Apply(p: Position, room: Room, c: char): (s: Step)
    ensures s == Halt(InvalidCommand) <==> !IsCommand(c)
    ensures s.Halt? && IsCommand(c) ==>
      c == 'F' && s.reason == OutOfBounds(p.x, p.y) && MoveForward(p, room).None?
    ensures c == 'L' ==> s == Next(p.(direction := TurnLeft(p.direction)))
    ensures c == 'R' ==> s == Next(p.(direction := TurnRight(p.direction)))
    ensures s.Next? && c != 'F' ==> s.q.x == p.x && s.q.y == p.y
    ensures s.Next? && c == 'F' ==> MoveForward(p, room) == Some(s.q)
  {
    match c
    case 'L' => Next(p.(direction := TurnLeft(p.direction)))
    case 'R' => Next(p.(direction := TurnRight(p.direction)))
    case 'F' =>
      (match MoveForward(p, room)
       case None => Halt(OutOfBounds(p.x, p.y))
       case Some(q) => Next(q))
    case _ => Halt(InvalidCommand)
  }

  /** The meaning of a single command in `room`. */
  function CommandStep(room: Room): (Position, char) -> Step
  {
    (q, c) => Apply(q, room, c)
  }

  /** A run of the simulator's commands from `p` in `room`. */
  function Run(p: Position, room: Room, cmds: string): (e: Execution)
    ensures |e.trace| <= |cmds|
    ensures e.outcome.Done? <==> |e.trace| == |cmds|
  {
    Interpret(CommandStep(room), p, cmds)
  }

  /** A run that stops early stops at command number |trace|: an unknown
      character stops it with InvalidCommand, and a refused `F` with
      OutOfBounds carrying the pre-move coordinates, from which a step
      does indeed leave the room. */
  lemma RunAbort(p: Position, room: Room, cmds: string)
    requires !Run(p, room, cmds).outcome.Done?
    ensures var e := Run(p, room, cmds);
      var k := |e.trace|;
      var held := Latest(p, e.trace);
      && k < |cmds|
      && (e.outcome.reason == InvalidCommand <==> !IsCommand(cmds[k]))
      && (e.outcome.reason.OutOfBounds? <==> cmds[k] == 'F')
      && (e.outcome.reason.OutOfBounds? ==>
            e.outcome.reason == OutOfBounds(held.x, held.y) && MoveForward(held, room).None?)
  {
    InterpretAbort(CommandStep(room), p, cmds);
    var e := Run(p, room, cmds);
    var k := |e.trace|;
    assert CommandStep(room)(Latest(p, e.trace), cmds[k]) == Apply(Latest(p, e.trace), room, cmds[k]);
  }

  /** Starting inside the room, every published position is inside the
      room: turns keep the cell, and moves are bounds-checked. */
  lemma {:induction false} RunStaysInRoom(p: Position, room: Room, cmds: string)
    requires InRoom(p, room)
    ensures forall i :: 0 <= i < |Run(p, room, cmds).trace| ==> InRoom(Run(p, room, cmds).trace[i], room)
    decreases |cmds|
  {
    if cmds != [] {
      assert CommandStep(room)(p, cmds[0]) == Apply(p, room, cmds[0]);
      match Apply(p, room, cmds[0])
      case Halt(_) =>
      case Next(q) =>
        RunStaysInRoom(q, room, cmds[1..]);
        InterpretNext(CommandStep(room), p, cmds);
        assert Run(p, room, cmds).trace == [q] + Run(q, room, cmds[1..]).trace;
    }
  }

  /** The quarter turns one command asks for: clockwise for `R`,
      counter-clockwise for `L`. */
  function Quarter(c: char): int
  {
    if c == 'R' then 1 else if c == 'L' then -1 else 0
  }

  /** The net clockwise quarter turns a command string asks for. */
  function NetTurns(cmds: string): int
  {
    if cmds == [] then 0 else Quarter(cmds[0]) + NetTurns(cmds[1..])
  }

  /** The net turn count is the number of `R`s less the number of `L`s. */
  lemma {:induction false} NetTurnsCounts(cmds: string)
    ensures NetTurns(cmds) == multiset(cmds)['R'] as int - multiset(cmds)['L'] as int
  {
    if cmds != [] {
      NetTurnsCounts(cmds[1..]);
      assert cmds == [cmds[0]] + cmds[1..];
      assert multiset(cmds) == multiset{cmds[0]} + multiset(cmds[1..]);
    }
  }

  /** A run that starts with a turn publishes the turned position, on the
      same cell, and continues from there. */
  lemma TurnFirst(p: Position, room: Room, cmds: string) returns (q: Position)
    requires cmds != [] && (cmds[0] == 'L' || cmds[0] == 'R')
    ensures q.x == p.x && q.y == p.y
    ensures q.direction == if cmds[0] == 'L' then TurnLeft(p.direction) else TurnRight(p.direction)
    ensures Ordinal(q.direction) == (Ordinal(p.direction) + Quarter(cmds[0])) % 4
    ensures Run(p, room, cmds) == Append([q], Run(q, room, cmds[1..]))
    ensures Latest(p, Run(p, room, cmds).trace) == Latest(q, Run(q, room, cmds[1..]).trace)
  {
    TurnOrdinals(p.direction);
    q := Apply(p, room, cmds[0]).q;
    assert CommandStep(room)(p, cmds[0]) == Next(q);
    InterpretNext(CommandStep(room), p, cmds);
  }

  /** A string of turns alone always completes and never changes the
      cell. */
  lemma {:induction false} RunTurnsOnly(p: Position, room: Room, cmds: string)
    requires forall i :: 0 <= i < |cmds| ==> cmds[i] == 'L' || cmds[i] == 'R'
    ensures var e := Run(p, room, cmds);
      && e.outcome == Done
      && (forall i :: 0 <= i < |e.trace| ==> e.trace[i].x == p.x && e.trace[i].y == p.y)
    decreases |cmds|
  {
    if cmds != [] {
      var q := TurnFirst(p, room, cmds);
      RunTurnsOnly(q, room, cmds[1..]);
    }
  }

  /** Two rotations modulo four add up. */
  lemma ModFourChain(o: int, n0: int, n1: int, q: int, r: int)
    requires q == (o + n0) % 4 && r == (q + n1) % 4
    ensures r == (o + (n0 + n1)) % 4
  {
    ModFourShift(o + n0, n1);
  }

  /** A string of turns alone leaves the robot rotated clockwise by its net
      quarter turns. */
  lemma {:induction false} RunTurnsRotate(p: Position, room: Room, cmds: string)
    requires forall i :: 0 <= i < |cmds| ==> cmds[i] == 'L' || cmds[i] == 'R'
    ensures Ordinal(Latest(p, Run(p, room, cmds).trace).direction)
         == (Ordinal(p.direction) + NetTurns(cmds)) % 4
    decreases |cmds|
  {
    if cmds != [] {
      var q := TurnFirst(p, room, cmds);
      var last := Latest(q, Run(q, room, cmds[1..]).trace);
      RunTurnsRotate(q, room, cmds[1..]);
      ModFourChain(Ordinal(p.direction), Quarter(cmds[0]), NetTurns(cmds[1..]),
        Ordinal(q.direction), Ordinal(last.direction));
    } else {
      var o := Ordinal(p.direction);
      assert o % 4 == o;
    }
  }

  /** The same fact about the direction itself: the robot ends facing its
      start direction turned by the net quarter turns. */
  lemma RunTurnsFacing(p: Position, room: Room, cmds: string)
    requires forall i :: 0 <= i < |cmds| ==> cmds[i] == 'L' || cmds[i] == 'R'
    ensures Latest(p, Run(p, room, cmds).trace).direction
         == FromOrdinal(Ordinal(p.direction) + NetTurns(cmds))
  {
    RunTurnsRotate(p, room, cmds);
    DirectionOfOrdinal(Latest(p, Run(p, room, cmds).trace).direction,
      Ordinal(p.direction) + NetTurns(cmds));
  }

  /** A string of turns with as many `R` as `L` leaves the robot facing the
      way it started. */
  lemma RunTurnsBalanced(p: Position, room: Room, cmds: string)
    requires forall i :: 0 <= i < |cmds| ==> cmds[i] == 'L' || cmds[i] == 'R'
    requires multiset(cmds)['R'] == multiset(cmds)['L']
    ensures Latest(p, Run(p, room, cmds).trace).direction == p.direction
  {
    NetTurnsCounts(cmds);
    RunTurnsFacing(p, room, cmds);
    DirectionOfOrdinal(p.direction, Ordinal(p.direction));
  }

  /** An ASCII lower-case letter. */
  predicate IsLowerAscii(c: char)
  {
    'a' <= c <= 'z'
  }

  /** Folds ASCII upper-case letters to lower case; used to say that two
      characters are the same letter up to case. */
  function FoldAscii(c: char): char
  {
    if 'A' <= c <= 'Z' then (c as int + 32) as char else c
  }

  /** The upper-case form of `c`: the same letter, and not lower-case. */
  function UpperAscii(c: char): (u: char)
    ensures !IsLowerAscii(u) && FoldAscii(u) == FoldAscii(c)
  {
    if IsLowerAscii(c) then (c as int - 32) as char else c
  }

  /** The command text as stored: every character upper-cased. */
  function ToUpper(s: string): (r: string)
    ensures |r| == |s|
    ensures forall i :: 0 <= i < |s| ==> !IsLowerAscii(r[i]) && FoldAscii(r[i]) == FoldAscii(s[i])
  {
    seq(|s|, i requires 0 <= i < |s| => UpperAscii(s[i]))
  }

  /** After upper-casing, `l`, `r` and `f` are the commands `L`, `R`, `F`,
      and no other character becomes one of them. */
  lemma ToUpperCommands(s: string, i: nat)
    requires i < |s|
    ensures ToUpper(s)[i] == 'L' <==> s[i] == 'L' || s[i] == 'l'
    ensures ToUpper(s)[i] == 'R' <==> s[i] == 'R' || s[i] == 'r'
    ensures ToUpper(s)[i] == 'F' <==> s[i] == 'F' || s[i] == 'f'
  {
    var u := ToUpper(s)[i];
    assert !IsLowerAscii(u) && FoldAscii(u) == FoldAscii(s[i]);
  }

  /** Upper-casing text that is already upper-cased changes nothing. */
  lemma ToUpperIdempotent(s: string)
    ensures ToUpper(ToUpper(s)) == ToUpper(s)
  {
    var t := ToUpper(s);
    forall i | 0 <= i < |t|
      ensures ToUpper(t)[i] == t[i]
    {
      var u := ToUpper(t)[i];
      assert !IsLowerAscii(u) && FoldAscii(u) == FoldAscii(t[i]) && !IsLowerAscii(t[i]);
    }
  }

  /** One loop step of the interpreter that succeeds: the run still to go
      from the new position accounts for the rest of the reference run. */
  lemma RunAdvances(start: Position, room: Room, cmds: string, i: nat, done: seq<Position>,
                    from: Position, next: Position)
    requires i < |cmds| && Apply(from, room, cmds[i]) == Next(next)
    requires Run(start, room, cmds) == Append(done, Run(from, room, cmds[i..]))
    ensures Run(start, room, cmds) == Append(done + [next], Run(next, room, cmds[i + 1..]))
    ensures Latest(start, done + [next]) == next
  {
    assert cmds[i..][0] == cmds[i] && cmds[i..][1..] == cmds[i + 1..];
    assert CommandStep(room)(from, cmds[i]) == Next(next);
    InterpretNext(CommandStep(room), from, cmds[i..]);
    var tail := Run(next, room, cmds[i + 1..]).trace;
    assert done + ([next] + tail) == (done + [next]) + tail;
  }

  /** One loop step of the interpreter that halts: the reference run ends
      here, with what has been published so far. */
  lemma RunHalts(start: Position, room: Room, cmds: string, i: nat, done: seq<Position>,
                 from: Position, reason: Abort)
    requires i < |cmds| && Apply(from, room, cmds[i]) == Halt(reason)
    requires Run(start, room, cmds) == Append(done, Run(from, room, cmds[i..]))
    ensures Run(start, room, cmds) == Execution(done, Aborted(reason))
  {
    assert cmds[i..][0] == cmds[i];
    assert CommandStep(room)(from, cmds[i]) == Halt(reason);
    assert done + [] == done;
  }

  /** The simulator's state: the room, the robot position on display, the
      stored command text, and every position published so far. */
  class Simulator {
    var room: Room
    var robot: Position
    var commands: string
    var published: seq<Position>

    /** A 5 x 5 room with the robot at (3, 3) facing North. */
    constructor ()
      ensures room == Room(5, 5) && robot == Position(3, 3, N)
      ensures commands == [] && published == []
    {
      room := Room(5, 5);
      robot := Position(3, 3, N);
      commands := [];
      published := [];
    }

    /** Stores the typed command text, upper-cased. */
    method SetCommands(text: string)
      modifies this
      ensures commands == ToUpper(text)
      ensures room == old(room) && robot == old(robot) && published == old(published)
    {
      commands := ToUpper(text);
    }

    /** Runs the stored commands from the displayed position, publishing
      the position after every command that succeeds. */
    method ExecuteCommands() returns (outcome: Outcome)
      modifies this
      ensures var e := Run(old(robot), old(room), old(commands));
        && outcome == e.outcome
        && published == old(published) + e.trace
        && robot == Latest(old(robot), e.trace)
      ensures room == old(room) && commands == old(commands)
    {
      var current := robot;
      ghost var done: seq<Position> := [];
      for i := 0 to |commands|
        invariant room == old(room) && commands == old(commands)
        invariant published == old(published) + done
        invariant robot == current && current == Latest(old(robot), done)
        invariant Run(old(robot), room, commands) == Append(done, Run(current, room, commands[i..]))
      {
        ghost var from := current;
        match commands[i] {
          case 'L' =>
            current := current.(direction := TurnLeft(current.direction));
          case 'R' =>
            current := current.(direction := TurnRight(current.direction));
          case 'F' =>
            var next := MoveForward(current, room);
            if next.None? {
              outcome := Aborted(OutOfBounds(current.x, current.y));
              RunHalts(old(robot), room, commands, i, done, current, outcome.reason);
              return;
            }
            current := next.value;
          case _ =>
            outcome := Aborted(InvalidCommand);
            RunHalts(old(robot), room, commands, i, done, current, outcome.reason);
            return;
        }
        RunAdvances(old(robot), room, commands, i, done, from, current);
        robot := current;
        published := published + [current];
        done := done + [current];
      }
      assert commands[|commands|..] == [];
      outcome := Done;
    }
  }
}

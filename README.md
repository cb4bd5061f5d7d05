# Robot controller: grid motion and command interpreter

A Dafny model of the logic of a small robot simulator. A robot stands on a
cell of a rectangular room, facing North, East, South or West. It obeys a
string of commands: `L` turns it left, `R` turns it right, and `F` moves it
one cell forward. The model covers two parts:

- **The motion engine** (`robot_utils.dfy`, module `RobotUtils`). Turning
  walks a fixed four-entry cycle table: `N W S E` for a left turn and
  `N E S W` for a right turn. It finds the current direction with an
  `indexOf` lookup and takes the next entry modulo four. `MoveForward`
  steps one cell: North is y-1, East is x+1, South is y+1 and West is x-1.
  It returns `None` (the source's `null`) when that cell lies outside
  `[0, width) x [0, depth)`. Only the candidate cell is checked; the
  starting position may lie anywhere.
- **The command interpreter** (`robot_simulator.dfy`, module
  `RobotSimulator`). `Interpret` is the loop: it applies commands in
  order, publishes the new position after each command that succeeds, and
  stops at the first command that halts. `Apply` gives the meaning of a
  single character. `Run` combines the two for a given room. There are two
  ways a run can stop early:
  - `Aborted(OutOfBounds(x, y))` when a forward move is refused. Like the
    source's message, it carries the coordinates the robot held *before*
    the move, not the cell it was refused.
  - `Aborted(InvalidCommand)` for any character other than `L`, `R` or `F`.

  The class `Simulator` holds the component's state: the room, the
  displayed robot position, the stored command text, and the sequence of
  every position published to the view. `ExecuteCommands` runs the loop in
  place, as the source does. It is proved to publish exactly
  `Run(...).trace`, to end with the robot on the last published position,
  and to leave the room untouched. `SetCommands` stores the typed text
  upper-cased, so `l`, `r` and `f` act as `L`, `R` and `F`.

`types.dfy` (module `Types`) holds the value types: `Direction`,
`Position`, `Room` and `Option`. The source's `Robot` record only wraps a
position, so the model holds the position directly. JavaScript numbers
become unbounded integers.

An out-of-bounds stop reports the coordinates the robot held before the
move (`src/components/RobotSimulator.tsx:36`), not the refused cell.

## Model

| member | source | states |
|---|---|---|
| `RobotUtils.IndexOfFirst` | src/utils/robotUtils.ts:7 | the table lookup (`IndexOf`, through `IndexOfFrom`) returns the first index holding the direction, and -1 exactly when the direction is absent |
| `RobotUtils.TurnLeft` | src/utils/robotUtils.ts:5-9 | a left turn, the lookup of the next entry of the cycle `N W S E` (`Successor`), maps N to W, W to S, S to E and E to N |
| `RobotUtils.TurnRight` | src/utils/robotUtils.ts:12-16 | a right turn, the lookup of the next entry of the cycle `N E S W` (`Successor`), maps N to E, E to S, S to W and W to N |
| `RobotUtils.TurnOrdinals` | src/utils/robotUtils.ts:5-16 | counting quarter turns clockwise from North, a right turn adds one and a left turn subtracts one, modulo four |
| `RobotUtils.TurnsAreInverse` | src/utils/robotUtils.ts:5-16 | a right turn undoes a left turn and a left turn undoes a right turn, for every direction |
| `RobotUtils.TurnsHaveOrderFour` | src/tests/robotUtils.test.ts:26-33 | four left turns, or four right turns, return every direction to itself |
| `RobotUtils.MoveForward` | src/utils/robotUtils.ts:19-45 | the result is the cell one unit ahead in the facing direction (N y-1, E x+1, S y+1, W x-1), facing the same way, exactly when that cell is inside the room, and None otherwise; a result is in the room and on a cell next to the input |
| `RobotUtils.MoveForwardFailsAtFacedWall` | src/utils/robotUtils.ts:23-41 | from a cell inside the room, a step fails exactly when the robot stands against the wall it faces |
| `RobotUtils.MoveForwardReversible` | src/utils/robotUtils.ts:19-45 | from inside the room, after a successful step, turning round and stepping again returns to the starting cell |
| `RobotUtils.MoveForwardExamples` | src/tests/robotUtils.test.ts:69-101 | the five worked moves in a 5 x 5 room give the expected cell or None; a start outside the room can still step into it |
| `RobotSimulator.Interpret` | src/components/RobotSimulator.tsx:25-47 | at most one position is published per command, and a run completes exactly when every command published one |
| `RobotSimulator.InterpretConcat` | src/components/RobotSimulator.tsx:25-47 | running a + b is running a and then, only if a completed, running b from where a left the robot; an abort discards the rest |
| `RobotSimulator.InterpretPrefix` | src/components/RobotSimulator.tsx:25-45 | the first i published positions are exactly those that the first i commands alone publish |
| `RobotSimulator.InterpretAbort` | src/components/RobotSimulator.tsx:33-43 | a run that stops early stops at command number \|trace\|, and that command, applied to the position then held, is the one that halts |
| `RobotSimulator.Apply` | src/components/RobotSimulator.tsx:26-44 | an unknown character halts with InvalidCommand and only it does; a known character halts only for F, with the pre-move coordinates, when the step would leave the room; L yields the position turned left and R the position turned right, on the same cell; a successful F yields MoveForward's position |
| `RobotSimulator.Run` | src/components/RobotSimulator.tsx:23-49 | a run of the commands in a given room publishes at most one position per command, and completes exactly when every command published one |
| `RobotSimulator.TurnFirst` | src/components/RobotSimulator.tsx:27-32 | a run that opens with L or R publishes first the robot on the same cell turned left or right, one quarter turn less or more, and continues from that position |
| `RobotSimulator.RunAbort` | src/components/RobotSimulator.tsx:33-43 | an early stop is InvalidCommand exactly when the stopping character is not L, R or F, and OutOfBounds exactly when it is F; OutOfBounds carries the coordinates held before the move, and a step from there leaves the room |
| `RobotSimulator.RunStaysInRoom` | src/components/RobotSimulator.tsx:24-40 | from a start inside the room, every published position is inside the room |
| `RobotSimulator.RunTurnsOnly` | src/components/RobotSimulator.tsx:27-32 | a string of L and R always completes, and no published position leaves the starting cell |
| `RobotSimulator.RunTurnsRotate` | src/components/RobotSimulator.tsx:27-32 | after a string of L and R the robot faces its start direction rotated clockwise by the net number of quarter turns, modulo four |
| `RobotSimulator.RunTurnsFacing` | src/components/RobotSimulator.tsx:27-32 | after a string of L and R the robot faces the direction that lies the net number of quarter turns clockwise from its start direction |
| `RobotSimulator.RunTurnsBalanced` | src/components/RobotSimulator.tsx:27-32 | a string of turns with as many R as L leaves the robot facing the way it started |
| `RobotSimulator.NetTurnsCounts` | src/components/RobotSimulator.tsx:27-32 | the net quarter turns of a string are its number of R less its number of L |
| `RobotSimulator.UpperAscii` | src/components/RobotSimulator.tsx:77 | an upper-cased character is the same letter up to case and is never an ASCII lower-case letter |
| `RobotSimulator.ToUpper` | src/components/RobotSimulator.tsx:77 | the stored text has the typed text's length, and each character is the same letter up to case, with no ASCII lower-case letter left |
| `RobotSimulator.ToUpperCommands` | src/components/RobotSimulator.tsx:77 | after upper-casing, a character is L, R or F exactly when the typed one was that letter in either case |
| `RobotSimulator.ToUpperIdempotent` | src/components/RobotSimulator.tsx:77 | upper-casing already upper-cased text changes nothing |
| `RobotSimulator.Simulator.constructor` | src/components/RobotSimulator.tsx:9-10 | the simulator starts with a 5 x 5 room, the robot at (3, 3) facing North, no commands and nothing published |
| `RobotSimulator.Simulator.SetCommands` | src/components/RobotSimulator.tsx:77 | the stored commands become the upper-cased text, and nothing else changes |
| `RobotSimulator.Simulator.ExecuteCommands` | src/components/RobotSimulator.tsx:23-49 | the loop publishes exactly the reference run's positions, in order, and returns its outcome; the displayed robot ends on the last published position, or stays put if none was published; the room and the commands are unchanged |

## Left out

- `src/components/RobotRoomVisualization.tsx` is not part of this model. It is 3D rendering and animation with floating-point rotations, and it has no logic to verify.
- The React plumbing is not modelled: `useState`, the JSX controls and the text readout. Publishing a position is modelled as appending to `published` and assigning `robot`.
- The 500 ms pause after each command is left out. It is presentation pacing and does not change what a run does.
- The `alert` pop-up is modelled as the returned `Outcome`. Its message text is not modelled beyond the coordinates it reports.
- `executeCommands` is `async`. Two runs started close together could interleave their loops. The model runs each call to completion, so this concurrency is not modelled.
- The size slider (`setRoom`, line 70) and the Reset button (line 81) are not modelled. Nothing in the source stops either from firing while a run waits between commands. A Reset shows (3, 3, N) until the run's next publish overwrites it, or until the end if it comes during the last wait. A slider change alters the displayed room, while the running loop keeps checking bounds against the room it started with. The model runs `ExecuteCommands` with no other event interleaved, so it captures neither effect. Like the source's loop, it keeps the room it started with.
- The source has an aliasing quirk. After `setRobot({ position: currentPosition })`, a later `L` or `R` writes `currentPosition.direction` in place, which also changes the object already handed to the view. The model publishes positions as values, so each published position keeps the direction it had when it was published.
- `RobotSimulator.UpperAscii`: maps only the ASCII letters a-z to upper case. Every other character is returned unchanged, so non-ASCII lower-case letters such as `é` keep their case, where JavaScript's `toUpperCase` gives `É`.
- `RobotSimulator.ToUpper`: upper-cases only the ASCII letters a-z. JavaScript's `toUpperCase` also maps other Unicode letters. Some of these change the length of the text: `ß` becomes `SS`, and the ligature `ﬂ` becomes `FL`, which would then run as two commands.
- `MoveForward` is a pure function, so calling it again on the same position and room gives the same result. The model needs no separate statement of this.
- Coordinates and room sizes are unbounded integers. JavaScript numbers are floating point, but the source only ever puts integers in them: the slider gives room sizes from 5 to 50, and steps are whole units.

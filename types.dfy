/** The value types shared by the motion engine and the simulator:
    a compass direction, a grid position with a facing, and a room. */
module Types {

  /** The four compass directions a robot can face. */
  datatype Direction = N | E | S | W

  /** A grid cell plus the direction the robot faces there. Coordinates are
      unbounded integers: nothing in the type keeps them inside a room. */
  datatype Position = Position(x: int, y: int, direction: Direction)

  /** A rectangular room; valid cells are [0, width) x [0, depth). */
  datatype Room = Room(width: int, depth: int)

  /** `T | null` in the source. */
  datatype Option<T> = None | Some(value: T)

  /** The cell of `p` lies inside `room`. */
  predicate InRoom(p: Position, room: Room)
  {
    0 <= p.x < room.width && 0 <= p.y < room.depth
  }
}
